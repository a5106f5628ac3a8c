/**
  The sweep-line dictionary (Dict.swift): a circular doubly-linked list of
  keys with a sentinel head whose key is nil, kept in the order of a
  caller-supplied `leq`.

  Nodes live in an arena: node n has `key[n]`, `next[n]` and `prev[n]`, and
  the head is node 0. A ghost listing `r` of the ring from the head (see
  `Cycles.IsRing`) says which nodes are in the list and in what order;
  `Keys(d, r)` are their keys. Allocation takes the fresh index |next|.
*/
module Dict {
  import opened Wrappers
  import opened Cycles
  import opened Orders

  datatype Dict<K> = Dict(key: seq<Option<K>>, next: seq<int>, prev: seq<int>)

  /** The ring listed by r holds the head and keyed nodes only. */
  ghost predicate Valid<K>(d: Dict<K>, r: seq<int>) {
    && IsRing(d.next, d.prev, r)
    && |d.key| == |d.next|
    && d.key[0] == None
    && forall i :: 1 <= i < |r| ==> d.key[r[i]].Some?
  }

  /** The keys of the list, in list order. */
  ghost function Keys<K>(d: Dict<K>, r: seq<int>): (ks: seq<K>)
    requires Valid(d, r)
    ensures |ks| == |r| - 1
  {
    seq(|r| - 1, t requires 0 <= t < |r| - 1 => d.key[r[t + 1]].value)
  }

  /** init: the head alone, linked to itself. */
  method New<K>() returns (d: Dict<K>, ghost r: seq<int>)
    ensures Valid(d, r) && r == [0] && Keys(d, r) == []
    ensures d.next[0] == 0 && d.prev[0] == 0
  {
    d := Dict([None], [0], [0]);
    r := [0];
    assert Distinct(r) by {
      forall x ensures multiset(r)[x] <= 1 {
      }
    }
  }

  /** insertBefore(node, k): walks back from node to the nearest node that is
      the head or has a key `leq` k, and links a new node holding k right
      after it. The walk passes over keys that are not `leq` k. */
  method InsertBefore<K>(d: Dict<K>, leq: (K, K) -> bool, node: int, k: K, ghost r: seq<int>)
    returns (d': Dict<K>, x: int, ghost r': seq<int>, ghost j: nat)
    requires Valid(d, r) && node in r
    ensures |d'.key| == |d.next| + 1 && Valid(d', r') && x == |d.next| && d'.key[x] == Some(k)
    ensures j < |r| && r' == InsertAt(r, if j == |r| - 1 then 0 else j + 1, x)
    ensures Keys(d', r') == Keys(d, r)[..j] + [k] + Keys(d, r)[j..]
    ensures j == 0 || leq(Keys(d, r)[j - 1], k)
    ensures var s := if node == 0 then |r| else IndexOf(r, node);
      j < s && forall t :: j <= t < s - 1 ==> !leq(Keys(d, r)[t], k)
  {
    var n;
    n, j := WalkBack(d, leq, node, k, r);
    x := |d.next|;
    ghost var p := if j == |r| - 1 then 0 else j + 1;
    LinkAfter(d, r, j, k);
    // the new node goes between n and its successor
    var at := d.next[n];
    var next := (d.next + [at])[n := x];
    var prev := (d.prev + [n])[at := x];
    d' := Dict(d.key + [Some(k)], next, prev);
    r' := InsertAt(r, p, x);
  }

  /** The walk of insertBefore: back from node to the nearest node, at
      position j of the ring, that is the head or has a key `leq` k. */
  method WalkBack<K>(d: Dict<K>, leq: (K, K) -> bool, node: int, k: K, ghost r: seq<int>)
    returns (n: int, ghost j: nat)
    requires Valid(d, r) && node in r
    ensures j < |r| && n == r[j]
    ensures j == 0 || leq(Keys(d, r)[j - 1], k)
    ensures var s := if node == 0 then |r| else IndexOf(r, node);
      j < s && forall t :: j <= t < s - 1 ==> !leq(Keys(d, r)[t], k)
  {
    ghost var i0 := IndexOf(r, node);
    ghost var s := if node == 0 then |r| else i0;
    n := d.prev[node];
    j := s - 1;
    assert n == r[j];
    while d.key[n].Some? && !leq(d.key[n].value, k)
      invariant 0 <= j < s && n == r[j]
      invariant forall t :: j <= t < s - 1 ==> !leq(Keys(d, r)[t], k)
      decreases j
    {
      assert j != 0;
      n := d.prev[n];
      j := j - 1;
    }
    if j != 0 {
      // the walk stopped at a keyed node: its key is `leq` k
      assert d.key[r[j]].Some? && Keys(d, r)[j - 1] == d.key[n].value;
    }
  }

  /** Linking a node holding k after the node at position j of the ring puts
      k at position j of the keys. */
  lemma LinkAfter<K>(d: Dict<K>, r: seq<int>, j: nat, k: K)
    requires Valid(d, r) && j < |r|
    ensures var p := if j == |r| - 1 then 0 else j + 1;
      && d.next[r[j]] == r[p] && 0 <= r[p] < |d.next| && d.prev[r[p]] == r[j]
      && var x := |d.next|;
         var d' := Dict(d.key + [Some(k)], (d.next + [r[p]])[r[j] := x], (d.prev + [r[j]])[r[p] := x]);
         && Valid(d', InsertAt(r, p, x))
         && Keys(d', InsertAt(r, p, x)) == Keys(d, r)[..j] + [k] + Keys(d, r)[j..]
  {
    var p := if j == |r| - 1 then 0 else j + 1;
    var x := |d.next|;
    assert d.next[r[j]] == r[p];
    assert d.prev[r[p]] == r[j];
    LinkBeforeIsRing(d.next, d.prev, r, p);
    var t := LinkBefore(d.next, d.prev, x, r[p]);
    var d' := Dict(d.key + [Some(k)], t.0, t.1);
    InsertKeys(d, r, d', InsertAt(r, p, x), j, k);
  }

  /** The keys after the new node's insertion at position j + 1 of the ring. */
  lemma InsertKeys<K>(d: Dict<K>, r: seq<int>, d': Dict<K>, r': seq<int>, j: nat, k: K)
    requires Valid(d, r) && j < |r| && IsRing(d'.next, d'.prev, r')
    requires d'.key == d.key + [Some(k)] && |d.key| == |d.next| && |d'.next| == |d.next| + 1
    requires r' == InsertAt(r, if j == |r| - 1 then 0 else j + 1, |d.next|)
    ensures Valid(d', r')
    ensures Keys(d', r') == Keys(d, r)[..j] + [k] + Keys(d, r)[j..]
  {
    var x := |d.next|;
    assert forall i :: 0 <= i < |r| ==> r[i] != x;
    forall i | 1 <= i < |r'| ensures d'.key[r'[i]].Some? {
      if i <= j {
        assert r'[i] == r[i];
      } else if i > j + 1 {
        assert r'[i] == r[i - 1];
      }
    }
    assert Valid(d', r');
    var ks, ks' := Keys(d, r), Keys(d', r');
    forall t | 0 <= t < |ks'| ensures ks'[t] == (ks[..j] + [k] + ks[j..])[t] {
      if t < j {
        assert r'[t + 1] == r[t + 1];
      } else if t > j {
        assert r'[t + 1] == r[t];
      }
    }
  }

  /** insert(k): insertBefore(head, k). On a list sorted by a total preorder
      the result is sorted, with k after every key it is equivalent to. */
  method Insert<K(!new)>(d: Dict<K>, leq: (K, K) -> bool, k: K, ghost r: seq<int>)
    returns (d': Dict<K>, x: int, ghost r': seq<int>)
    requires Valid(d, r)
    ensures |d'.key| == |d.next| + 1 && Valid(d', r') && x == |d.next| && d'.key[x] == Some(k)
    ensures exists j :: 0 <= j <= |Keys(d, r)| && Keys(d', r') == Keys(d, r)[..j] + [k] + Keys(d, r)[j..]
    ensures TotalPreorder(leq) && Sorted(Keys(d, r), leq) ==>
      && Sorted(Keys(d', r'), leq)
      && exists j :: 0 <= j <= |Keys(d, r)| && Keys(d', r') == Keys(d, r)[..j] + [k] + Keys(d, r)[j..]
           && (forall t :: j <= t < |Keys(d, r)| ==> !leq(Keys(d, r)[t], k))
  {
    ghost var j;
    d', x, r', j := InsertBefore(d, leq, 0, k, r);
    ghost var ks := Keys(d, r);
    if TotalPreorder(leq) && Sorted(ks, leq) {
      InsertSorted(ks, leq, k, j);
    }
  }

  /** Placing k after a prefix whose last key is `leq` k and before a suffix
      of keys that are not keeps a sorted sequence sorted. */
  lemma InsertSorted<K(!new)>(ks: seq<K>, leq: (K, K) -> bool, k: K, j: nat)
    requires TotalPreorder(leq) && Sorted(ks, leq) && j <= |ks|
    requires j == 0 || leq(ks[j - 1], k)
    requires forall t :: j <= t < |ks| ==> !leq(ks[t], k)
    ensures Sorted(ks[..j] + [k] + ks[j..], leq)
  {
    var ks' := ks[..j] + [k] + ks[j..];
    forall a, b | 0 <= a < b < |ks'| ensures leq(ks'[a], ks'[b]) {
      if b < j {
        assert ks'[a] == ks[a] && ks'[b] == ks[b];
      } else if b == j {
        assert ks'[a] == ks[a];
        assert leq(ks[a], ks[j - 1]) || a == j - 1;
      } else if a < j {
        assert ks'[a] == ks[a] && ks'[b] == ks[b - 1];
      } else if a == j {
        assert !leq(ks[b - 1], k);
      } else {
        assert ks'[a] == ks[a - 1] && ks'[b] == ks[b - 1];
      }
    }
  }

  /** find(k): the first node from the front whose key k is `leq`, or the
      head when there is none. */
  method Find<K>(d: Dict<K>, leq: (K, K) -> bool, k: K, ghost r: seq<int>)
    returns (n: int, ghost p: nat)
    requires Valid(d, r)
    ensures p <= |Keys(d, r)| && n == (if p == |Keys(d, r)| then 0 else r[p + 1])
    ensures p < |Keys(d, r)| ==> leq(k, Keys(d, r)[p])
    ensures forall t :: 0 <= t < p ==> !leq(k, Keys(d, r)[t])
  {
    n := d.next[0];
    p := 0;
    assert n == if |r| == 1 then 0 else r[1];
    while d.key[n].Some? && !leq(k, d.key[n].value)
      invariant p < |r| && n == (if p == |r| - 1 then 0 else r[p + 1])
      invariant forall t :: 0 <= t < p ==> !leq(k, Keys(d, r)[t])
      decreases |r| - p
    {
      n := d.next[n];
      p := p + 1;
    }
  }

  /** min(): the first node, which is the head itself when the list is empty. */
  method Min<K>(d: Dict<K>, ghost r: seq<int>) returns (n: int)
    requires Valid(d, r)
    ensures |r| == 1 ==> n == 0
    ensures |r| > 1 ==> n == r[1] && d.key[n] == Some(Keys(d, r)[0])
  {
    n := d.next[0];
  }

  /** remove(node): node's neighbours are linked to each other; the other
      nodes keep their order. */
  method Remove<K>(d: Dict<K>, node: int, ghost r: seq<int>) returns (d': Dict<K>, ghost r': seq<int>)
    requires Valid(d, r) && node in r && node != 0
    ensures 0 <= d.prev[node] < |d.next| && 0 <= d.next[node] < |d.next|
    ensures d' == d.(next := d'.next, prev := d'.prev) && |d'.next| == |d.next|
    ensures Valid(d', r') && node !in r'
    ensures var i := IndexOf(r, node);
      && r' == RemoveAt(r, i)
      && Keys(d', r') == Keys(d, r)[..i - 1] + Keys(d, r)[i..]
    ensures d'.next[d.prev[node]] == d.next[node] && d'.prev[d.next[node]] == d.prev[node]
  {
    ghost var i := IndexOf(r, node);
    UnlinkIsRing(d.next, d.prev, r, i);
    var next := d.next;
    var prev := d.prev;
    prev := prev[next[node] := prev[node]];
    next := next[prev[node] := next[node]];
    assert (next, prev) == Unlink(d.next, d.prev, node);
    d' := d.(next := next, prev := prev);
    r' := RemoveAt(r, i);
    RemoveKeys(d, r, d', r', i);
  }

  lemma RemoveKeys<K>(d: Dict<K>, r: seq<int>, d': Dict<K>, r': seq<int>, i: nat)
    requires Valid(d, r) && 0 < i < |r| && IsRing(d'.next, d'.prev, r') && d'.key == d.key
    requires |d'.next| == |d.next|
    requires r' == RemoveAt(r, i)
    ensures Valid(d', r') && r[i] !in r'
    ensures Keys(d', r') == Keys(d, r)[..i - 1] + Keys(d, r)[i..]
  {
    RemoveAtContents(r, i);
    forall t | 1 <= t < |r'| ensures d'.key[r'[t]].Some? {
      if t >= i {
        assert r'[t] == r[t + 1];
      }
    }
    assert Valid(d', r');
    var ks, ks' := Keys(d, r), Keys(d', r');
    forall t | 0 <= t < |ks'| ensures ks'[t] == (ks[..i - 1] + ks[i..])[t] {
      if t >= i - 1 {
        assert r'[t + 1] == r[t + 2];
      }
    }
  }
}
