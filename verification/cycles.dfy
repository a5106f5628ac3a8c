/**
  Cycles of a successor table and circular doubly-linked rings.

  A successor table `succ` maps an index to the index of the next element
  (a half-edge's Onext or Lnext, a vertex's next). A cycle of `succ` is
  written out as the sequence of its elements, starting anywhere.
*/
module Cycles {

  /** No element occurs twice in `c`. */
  ghost predicate Distinct(c: seq<int>) {
    forall x :: multiset(c)[x] <= 1
  }

  predicate InRange(c: seq<int>, n: int) {
    forall i :: 0 <= i < |c| ==> 0 <= c[i] < n
  }

  /** `c` lists, in order, the distinct elements of one cycle of `succ`. */
  ghost predicate IsCycle(succ: seq<int>, c: seq<int>) {
    && |c| > 0
    && Distinct(c)
    && InRange(c, |succ|)
    && (forall i {:trigger succ[c[i]]} :: 0 <= i < |c| - 1 ==> succ[c[i]] == c[i + 1])
    && succ[c[|c| - 1]] == c[0]
  }

  /** Two positions of a sequence without repetitions hold different elements. */
  lemma DistinctApart(c: seq<int>, i: int, j: int)
    requires Distinct(c) && 0 <= i < |c| && 0 <= j < |c| && i != j
    ensures c[i] != c[j]
  {
    var p := if i < j then i else j;
    var q := if i < j then j else i;
    assert c == c[..p] + [c[p]] + c[p + 1..q] + [c[q]] + c[q + 1..];
    assert multiset(c)[c[q]] >= multiset([c[p]])[c[q]] + multiset([c[q]])[c[q]];
  }

  /** The same, for all pairs of positions at once. */
  lemma DistinctPairs(c: seq<int>)
    requires Distinct(c)
    ensures forall i, j :: 0 <= i < |c| && 0 <= j < |c| && i != j ==> c[i] != c[j]
  {
    forall i, j | 0 <= i < |c| && 0 <= j < |c| && i != j ensures c[i] != c[j] {
      DistinctApart(c, i, j);
    }
  }

  function Elems(c: seq<int>): (s: set<int>)
    ensures forall z :: z in s <==> z in c
  {
    set z | z in c
  }

  function IndexOf(c: seq<int>, x: int): (k: nat)
    requires x in c
    ensures k < |c| && c[k] == x
    ensures forall i :: 0 <= i < k ==> c[i] != x
  {
    if c[0] == x then 0 else 1 + IndexOf(c[1..], x)
  }

  /** The same cyclic order read from position k. */
  function Rotate(c: seq<int>, k: nat): (r: seq<int>)
    requires k < |c|
    ensures |r| == |c| && r[0] == c[k]
    ensures forall i :: 0 <= i < |c| ==> r[i] == c[if i < |c| - k then k + i else i - (|c| - k)]
    ensures multiset(r) == multiset(c)
    ensures forall x :: x in r <==> x in c
  {
    assert c == c[..k] + c[k..];
    var r := c[k..] + c[..k];
    assert forall x :: x in r <==> x in c by {
      forall x ensures x in r <==> x in c {
        assert x in r <==> multiset(r)[x] > 0;
        assert x in c <==> multiset(c)[x] > 0;
      }
    }
    r
  }

  /** The cycle read from element x. */
  function RotateTo(c: seq<int>, x: int): (r: seq<int>)
    requires x in c
    ensures |r| == |c| && r[0] == x
    ensures multiset(r) == multiset(c)
    ensures forall y :: y in r <==> y in c
  {
    Rotate(c, IndexOf(c, x))
  }

  lemma RotateIsCycle(succ: seq<int>, c: seq<int>, k: nat)
    requires IsCycle(succ, c) && k < |c|
    ensures IsCycle(succ, Rotate(c, k))
  {
    var n := |c|;
    var r := Rotate(c, k);
    forall i | 0 <= i < n - 1
      ensures succ[r[i]] == r[i + 1]
    {
      if i < n - k - 1 {
        assert r[i] == c[k + i] && r[i + 1] == c[k + i + 1];
      } else if i == n - k - 1 {
        assert r[i] == c[n - 1] && r[i + 1] == c[0];
      } else {
        assert r[i] == c[i - (n - k)] && r[i + 1] == c[i + 1 - (n - k)];
      }
    }
    if k > 0 {
      assert r[n - 1] == c[k - 1];
    }
  }

  lemma RotateToIsCycle(succ: seq<int>, c: seq<int>, x: int)
    requires IsCycle(succ, c) && x in c
    ensures IsCycle(succ, RotateTo(c, x))
  {
    RotateIsCycle(succ, c, IndexOf(c, x));
  }

  /** A cycle is closed under its successor. */
  lemma SuccInCycle(succ: seq<int>, c: seq<int>, x: int)
    requires IsCycle(succ, c) && x in c
    ensures 0 <= x < |succ| && succ[x] in c
  {
    var i := IndexOf(c, x);
    if i < |c| - 1 {
      assert succ[c[i]] == c[i + 1];
    }
  }

  /** Read from x, a cycle continues with x's successor, and every other
      element comes after it. */
  lemma SecondOfRotation(succ: seq<int>, c: seq<int>, x: int)
    requires IsCycle(succ, c) && x in c && 0 <= x < |succ| && succ[x] != x
    ensures |RotateTo(c, x)| > 1 && RotateTo(c, x)[1] == succ[x]
    ensures forall z :: z in c && z != succ[x] ==> z in [x] + RotateTo(c, x)[2..]
  {
    var r := RotateTo(c, x);
    RotateToIsCycle(succ, c, x);
    assert |r| > 1;
    assert succ[r[0]] == r[1];
    assert r == [r[0], r[1]] + r[2..];
  }

  /** A cycle through x whose successor steps back to x in two has only x
      and its successor. */
  lemma TwoCycle(succ: seq<int>, c: seq<int>, x: int)
    requires IsCycle(succ, c) && x in c && 0 <= x < |succ| && succ[x] != x
    requires 0 <= succ[x] < |succ| && succ[succ[x]] == x
    ensures forall z :: z in c ==> z == x || z == succ[x]
  {
    var r := RotateTo(c, x);
    SecondOfRotation(succ, c, x);
    RotateToIsCycle(succ, c, x);
    if |r| > 2 {
      assert succ[r[1]] == r[2];
      DistinctApart(r, 0, 2);
    }
    assert r == [x, succ[x]];
  }

  /** Two cycles of the same table that share an element have the same
      elements. */
  lemma {:induction false} CyclesMeet(succ: seq<int>, c: seq<int>, d: seq<int>, x: int)
    requires IsCycle(succ, c) && IsCycle(succ, d) && x in c && x in d
    ensures forall y :: y in c <==> y in d
  {
    var c' := RotateTo(c, x);
    var d' := RotateTo(d, x);
    RotateToIsCycle(succ, c, x);
    RotateToIsCycle(succ, d, x);
    // both walks from x agree step by step
    forall i | 0 <= i < |c'| ensures i < |d'| && c'[i] == d'[i] {
      WalksAgree(succ, c', d', i);
    }
    forall i | 0 <= i < |d'| ensures i < |c'| && c'[i] == d'[i] {
      WalksAgree(succ, d', c', i);
    }
  }

  lemma {:induction false} WalksAgree(succ: seq<int>, c: seq<int>, d: seq<int>, i: nat)
    requires IsCycle(succ, c) && IsCycle(succ, d) && c[0] == d[0] && i < |c|
    ensures i < |d| && c[i] == d[i]
  {
    if i > 0 {
      WalksAgree(succ, c, d, i - 1);
      assert succ[c[i - 1]] == c[i];
      if i == |d| {
        // d closes up after i - 1, so c would revisit c[0] at i
        assert succ[d[i - 1]] == d[0];
        DistinctApart(c, 0, i);
      }
      assert succ[d[i - 1]] == d[i];
    }
  }

  /** Swapping the successors of x and y: the table change made by a splice. */
  function SwapSucc(succ: seq<int>, x: int, y: int): (r: seq<int>)
    requires 0 <= x < |succ| && 0 <= y < |succ|
    ensures |r| == |succ|
    ensures r[x] == succ[y] && r[y] == succ[x]
    ensures forall z :: 0 <= z < |succ| && z != x && z != y ==> r[z] == succ[z]
  {
    succ[x := succ[y]][y := succ[x]]
  }

  /** A swap leaves the successors outside any set holding both positions. */
  lemma SwapFrame(succ: seq<int>, x: int, y: int, c: seq<int>)
    requires 0 <= x < |succ| && 0 <= y < |succ| && x in c && y in c
    ensures forall z :: 0 <= z < |succ| && z !in c ==> SwapSucc(succ, x, y)[z] == succ[z]
  {
  }

  /** The same for a swap between two sequences. */
  lemma SwapFrame2(succ: seq<int>, x: int, y: int, c: seq<int>, d: seq<int>)
    requires 0 <= x < |succ| && 0 <= y < |succ| && x in c && y in d
    ensures forall z :: 0 <= z < |succ| && z !in c && z !in d ==> SwapSucc(succ, x, y)[z] == succ[z]
  {
  }

  /** An update at u leaves the other positions. */
  lemma UpdateFrame(s: seq<int>, u: int, a: int)
    requires 0 <= u < |s|
    ensures forall z :: 0 <= z < |s| && z != u ==> s[u := a][z] == s[z]
  {
  }

  /** An append and an update at u leave the other old positions. */
  lemma AppendUpdateFrame(s: seq<int>, b: int, u: int, a: int)
    requires 0 <= u < |s|
    ensures |(s + [b])[u := a]| == |s| + 1
    ensures (s + [b])[u := a][u] == a && (s + [b])[u := a][|s|] == b
    ensures forall z :: 0 <= z < |s| && z != u ==> (s + [b])[u := a][z] == s[z]
  {
  }

  /** A cycle whose successors did not change is still a cycle. */
  lemma CycleKept(succ: seq<int>, succ': seq<int>, c: seq<int>)
    requires IsCycle(succ, c)
    requires forall i :: 0 <= i < |c| ==> 0 <= c[i] < |succ'| && succ'[c[i]] == succ[c[i]]
    ensures IsCycle(succ', c)
  {
    forall i {:trigger succ'[c[i]]} | 0 <= i < |c| - 1 ensures succ'[c[i]] == c[i + 1] {
      assert succ[c[i]] == c[i + 1];
    }
  }

  /** Swapping is symmetric in the two positions. */
  lemma SwapSymmetric(succ: seq<int>, x: int, y: int)
    requires 0 <= x < |succ| && 0 <= y < |succ|
    ensures SwapSucc(succ, x, y) == SwapSucc(succ, y, x)
  {
  }

  /** Swapping at y and a and then at a and t moves t, the successor of a,
      to follow y: the same as swapping at a and t and then at y and t. */
  lemma SwapsMove(succ: seq<int>, y: int, a: int, t: int)
    requires 0 <= y < |succ| && 0 <= a < |succ| && 0 <= t < |succ|
    requires y != a && y != t && a != t
    ensures SwapSucc(SwapSucc(succ, y, a), a, t) == SwapSucc(SwapSucc(succ, a, t), y, t)
  {
  }

  /** Swapping twice at the same positions restores the table. */
  lemma SwapTwice(succ: seq<int>, x: int, y: int)
    requires 0 <= x < |succ| && 0 <= y < |succ|
    ensures SwapSucc(SwapSucc(succ, x, y), x, y) == succ
  {
  }

  /** The two parts p = [c[0]] + c[j+1..] and q = [c[j]] + c[1..j] of a split
      cycle partition it. */
  lemma SplitPartition(c: seq<int>, j: nat)
    requires Distinct(c) && 0 < j < |c|
    ensures Distinct([c[0]] + c[j + 1..]) && Distinct([c[j]] + c[1..j])
    ensures forall z :: z in c <==> z in [c[0]] + c[j + 1..] || z in [c[j]] + c[1..j]
    ensures forall z :: z in [c[0]] + c[j + 1..] ==> z !in [c[j]] + c[1..j]
  {
    var p := [c[0]] + c[j + 1..];
    var q := [c[j]] + c[1..j];
    assert c == [c[0]] + c[1..j] + [c[j]] + c[j + 1..];
    assert multiset(c) == multiset(p) + multiset(q);
    forall z
      ensures multiset(p)[z] <= 1 && multiset(q)[z] <= 1
      ensures z in c <==> z in p || z in q
      ensures z in p ==> z !in q
    {
      assert multiset(c)[z] == multiset(p)[z] + multiset(q)[z];
      assert z in c <==> multiset(c)[z] > 0;
      assert z in p <==> multiset(p)[z] > 0;
      assert z in q <==> multiset(q)[z] > 0;
    }
  }

  /** Swapping successors of two elements x = c[0] and y = c[j] of one cycle
      splits it in two: the part from x ... */
  lemma SwapSplitsFirst(succ: seq<int>, c: seq<int>, j: nat)
    requires IsCycle(succ, c) && 0 < j < |c|
    ensures IsCycle(SwapSucc(succ, c[0], c[j]), [c[0]] + c[j + 1..])
  {
    var s' := SwapSucc(succ, c[0], c[j]);
    var a := [c[0]] + c[j + 1..];
    SplitPartition(c, j);
    DistinctPairs(c);
    forall i {:trigger s'[a[i]]} | 0 <= i < |a| - 1 ensures s'[a[i]] == a[i + 1] {
      if i == 0 {
        assert a[1] == c[j + 1];
      } else {
        assert a[i] == c[j + i] && a[i + 1] == c[j + i + 1];
      }
    }
    if j < |c| - 1 {
      assert a[|a| - 1] == c[|c| - 1];
    }
  }

  /** ... and the part from y. */
  lemma SwapSplitsSecond(succ: seq<int>, c: seq<int>, j: nat)
    requires IsCycle(succ, c) && 0 < j < |c|
    ensures IsCycle(SwapSucc(succ, c[0], c[j]), [c[j]] + c[1..j])
  {
    var s' := SwapSucc(succ, c[0], c[j]);
    var b := [c[j]] + c[1..j];
    SplitPartition(c, j);
    DistinctPairs(c);
    forall i {:trigger s'[b[i]]} | 0 <= i < |b| - 1 ensures s'[b[i]] == b[i + 1] {
      if i == 0 {
        assert b[1] == c[1];
      } else {
        assert b[i] == c[i] && b[i + 1] == c[i + 1];
      }
    }
    if j > 1 {
      assert b[|b| - 1] == c[j - 1];
    }
  }

  /** Both parts of a split, and that they partition the cycle. */
  lemma SwapSplits(succ: seq<int>, c: seq<int>, j: nat)
    requires IsCycle(succ, c) && 0 < j < |c|
    ensures IsCycle(SwapSucc(succ, c[0], c[j]), [c[0]] + c[j + 1..])
    ensures IsCycle(SwapSucc(succ, c[0], c[j]), [c[j]] + c[1..j])
    ensures forall z :: z in c <==> z in [c[0]] + c[j + 1..] || z in [c[j]] + c[1..j]
    ensures forall z :: z in [c[0]] + c[j + 1..] ==> z !in [c[j]] + c[1..j]
  {
    SwapSplitsFirst(succ, c, j);
    SwapSplitsSecond(succ, c, j);
    SplitPartition(c, j);
  }

  /** The two cycles that a swap of the successors of x and y leaves of the
      cycle c holding both: the one through x and the one through y. */
  function Halves(c: seq<int>, x: int, y: int): (h: (seq<int>, seq<int>))
    requires x in c && y in c && x != y
    ensures |h.0| > 0 && |h.1| > 0 && h.0[0] == x && h.1[0] == y
  {
    var r := RotateTo(c, x);
    var j := IndexOf(r, y);
    ([x] + r[j + 1..], [y] + r[1..j])
  }

  /** The position of y in the cycle read from x, and the halves there. */
  lemma HalvesAt(c0: seq<int>, x: int, y: int) returns (j: nat)
    requires x in c0 && y in c0 && x != y
    ensures var c := RotateTo(c0, x);
      && 0 < j < |c| && c[j] == y
      && Halves(c0, x, y) == ([x] + c[j + 1..], [c[j]] + c[1..j])
  {
    var c := RotateTo(c0, x);
    assert y in c;
    j := IndexOf(c, y);
  }

  /** The element whose successor is x, when it is not y, ends the half
      through x. */
  lemma PredInFirstHalf(succ: seq<int>, c: seq<int>, x: int, y: int, p: int)
    requires IsCycle(succ, c) && x in c && y in c && x != y && p in c && p != y
    requires 0 <= p < |succ| && succ[p] == x
    ensures p in Halves(c, x, y).0
  {
    var r := RotateTo(c, x);
    var j := IndexOf(r, y);
    RotateToIsCycle(succ, c, x);
    var k := IndexOf(r, p);
    if k < |r| - 1 {
      assert succ[r[k]] == r[k + 1];
      DistinctApart(r, k + 1, 0);
    }
    assert r[|r| - 1] == p && j < |r| - 1;
    assert p == r[j + 1..][|r| - 1 - (j + 1)];
  }

  /** The halves are cycles of the swapped table, partition c, and each holds
      the old successor of the other's first element. */
  lemma SwapHalves(succ: seq<int>, c: seq<int>, x: int, y: int)
    requires IsCycle(succ, c) && x in c && y in c && x != y
    ensures 0 <= x < |succ| && 0 <= y < |succ|
    ensures IsCycle(SwapSucc(succ, x, y), Halves(c, x, y).0)
    ensures IsCycle(SwapSucc(succ, x, y), Halves(c, x, y).1)
    ensures forall z :: z in c <==> z in Halves(c, x, y).0 || z in Halves(c, x, y).1
    ensures forall z :: z in Halves(c, x, y).0 ==> z !in Halves(c, x, y).1
    ensures succ[y] in Halves(c, x, y).0 && succ[x] in Halves(c, x, y).1
  {
    var r := RotateTo(c, x);
    var j := IndexOf(r, y);
    RotateToIsCycle(succ, c, x);
    SwapSplits(succ, r, j);
    assert succ[y] in Halves(c, x, y).0 by {
      if j + 1 < |r| { assert succ[r[j]] == r[j + 1]; } else { assert succ[r[j]] == r[0]; }
    }
    assert succ[x] in Halves(c, x, y).1 by {
      assert succ[r[0]] == r[1];
      if j > 1 { assert r[1] in r[1..j]; }
    }
  }

  /** Swapping successors of the first elements of two disjoint cycles joins
      them into one. */
  lemma SwapJoins(succ: seq<int>, c: seq<int>, d: seq<int>)
    requires IsCycle(succ, c) && IsCycle(succ, d)
    requires forall z :: z in c ==> z !in d
    ensures IsCycle(SwapSucc(succ, c[0], d[0]), [c[0]] + d[1..] + [d[0]] + c[1..])
  {
    JoinedDistinct(c, d);
    JoinedSucc(succ, c, d);
  }

  lemma JoinedDistinct(c: seq<int>, d: seq<int>)
    requires |c| > 0 && |d| > 0 && Distinct(c) && Distinct(d)
    requires forall z :: z in c ==> z !in d
    ensures Distinct([c[0]] + d[1..] + [d[0]] + c[1..])
    ensures forall z :: z in [c[0]] + d[1..] + [d[0]] + c[1..] <==> z in c || z in d
  {
    var r := [c[0]] + d[1..] + [d[0]] + c[1..];
    assert c == [c[0]] + c[1..] && d == [d[0]] + d[1..];
    assert multiset(r) == multiset(c) + multiset(d);
    forall z ensures multiset(r)[z] <= 1 && (z in r <==> z in c || z in d) {
      assert z in r <==> multiset(r)[z] > 0;
      assert z in c <==> multiset(c)[z] > 0;
      assert z in d <==> multiset(d)[z] > 0;
    }
  }

  lemma JoinedSucc(succ: seq<int>, c: seq<int>, d: seq<int>)
    requires IsCycle(succ, c) && IsCycle(succ, d)
    requires forall z :: z in c ==> z !in d
    ensures var s' := SwapSucc(succ, c[0], d[0]);
      var r := [c[0]] + d[1..] + [d[0]] + c[1..];
      (forall i {:trigger s'[r[i]]} :: 0 <= i < |r| - 1 ==> s'[r[i]] == r[i + 1]) && s'[r[|r| - 1]] == r[0]
  {
    var s' := SwapSucc(succ, c[0], d[0]);
    var r := [c[0]] + d[1..] + [d[0]] + c[1..];
    DistinctPairs(c);
    DistinctPairs(d);
    var nc := |c|;
    var nd := |d|;
    forall i {:trigger s'[r[i]]} | 0 <= i < |r| - 1 ensures s'[r[i]] == r[i + 1] {
      if i == 0 {
        if nd > 1 { assert r[1] == d[1]; } else { assert r[1] == d[0]; }
      } else if i < nd {
        assert r[i] == d[i] && d[i] != d[0] && d[i] !in c;
        if i < nd - 1 { assert r[i + 1] == d[i + 1]; } else { assert r[i + 1] == d[0]; }
      } else if i == nd {
        assert r[i + 1] == c[1];
      } else {
        assert r[i] == c[i - nd] && r[i + 1] == c[i - nd + 1];
        assert c[i - nd] != c[0] && c[i - nd] !in d;
      }
    }
    if nc > 1 {
      assert r[|r| - 1] == c[nc - 1] && c[nc - 1] != c[0] && c[nc - 1] !in d;
    } else {
      assert r[|r| - 1] == d[0];
    }
  }

  // ---------------------------------------------------------------------------
  // Rings: circular doubly-linked lists threaded through `next` and `prev`
  // tables, starting at the head sentinel, index 0.

  /** `r` lists the ring from the head, in `next` order. */
  ghost predicate IsRing(next: seq<int>, prev: seq<int>, r: seq<int>) {
    && |next| == |prev|
    && |r| > 0 && r[0] == 0
    && Distinct(r)
    && InRange(r, |next|)
    && (forall i {:trigger next[r[i]]} :: 0 <= i < |r| - 1 ==> next[r[i]] == r[i + 1])
    && (forall i {:trigger prev[r[i]]} :: 0 < i < |r| ==> prev[r[i]] == r[i - 1])
    && next[r[|r| - 1]] == 0
    && prev[0] == r[|r| - 1]
  }

  /** `r` with x inserted just before position k; before the head means at the
      end of the listing, because the listing starts at the head. */
  function InsertAt(r: seq<int>, k: nat, x: int): (r': seq<int>)
    requires k < |r|
    ensures |r'| == |r| + 1
    ensures multiset(r') == multiset(r) + multiset{x}
    ensures forall y :: y in r' <==> y in r || y == x
    ensures var p := if k == 0 then |r| else k;
      forall i {:trigger r'[i]} :: 0 <= i < |r'| ==> r'[i] == if i < p then r[i] else if i == p then x else r[i - 1]
  {
    if k == 0 then r + [x]
    else
      assert r == r[..k] + r[k..];
      r[..k] + [x] + r[k..]
  }

  function RemoveAt(r: seq<int>, k: nat): (r': seq<int>)
    requires k < |r|
    ensures |r'| == |r| - 1
  {
    r[..k] + r[k + 1..]
  }

  lemma RemoveAtContents(r: seq<int>, k: nat)
    requires k < |r| && Distinct(r)
    ensures forall y :: y in RemoveAt(r, k) <==> y in r && y != r[k]
    ensures Distinct(RemoveAt(r, k))
  {
    var r' := RemoveAt(r, k);
    assert r == r[..k] + [r[k]] + r[k + 1..];
    assert multiset(r) == multiset(r') + multiset{r[k]};
    forall y ensures multiset(r')[y] <= 1 && (y in r' <==> y in r && y != r[k]) {
      assert y in r' <==> multiset(r')[y] > 0;
      assert y in r <==> multiset(r)[y] > 0;
    }
  }

  /** Linking a fresh element x = |next| in before r[k]. */
  function LinkBefore(next: seq<int>, prev: seq<int>, x: int, at: int): (t: (seq<int>, seq<int>))
    requires |next| == |prev| && x == |next| && 0 <= at < |next| && 0 <= prev[at] < |next|
    ensures |t.0| == |t.1| == |next| + 1
  {
    var before := prev[at];
    var next' := (next + [at])[before := x];
    var prev' := (prev + [before])[at := x];
    (next', prev')
  }

  lemma LinkBeforeIsRing(next: seq<int>, prev: seq<int>, r: seq<int>, k: nat)
    requires IsRing(next, prev, r) && k < |r|
    ensures 0 <= prev[r[k]] < |next|
    ensures var t := LinkBefore(next, prev, |next|, r[k]);
      IsRing(t.0, t.1, InsertAt(r, k, |next|))
  {
    var x := |next|;
    var r' := InsertAt(r, k, x);
    assert x !in r;
    InsertAtDistinct(r, k, x, x + 1);
    assert r'[0] == 0;
    LinkBeforeNext(next, prev, r, k);
    LinkBeforePrev(next, prev, r, k);
  }

  /** Inserting a new element keeps a sequence without repetitions and in range. */
  lemma InsertAtDistinct(r: seq<int>, k: nat, x: int, n: int)
    requires k < |r| && Distinct(r) && InRange(r, n) && x !in r && 0 <= x < n
    ensures Distinct(InsertAt(r, k, x)) && InRange(InsertAt(r, k, x), n)
  {
    var r' := InsertAt(r, k, x);
    assert multiset(r)[x] == 0;
    assert Distinct(r') by {
      forall y ensures multiset(r')[y] <= 1 {
        assert multiset(r')[y] == multiset(r)[y] + multiset{x}[y];
      }
    }
    var p := if k == 0 then |r| else k;
    forall i | 0 <= i < |r'| ensures 0 <= r'[i] < n {
      if i < p {
        assert r'[i] == r[i];
      } else if i > p {
        assert r'[i] == r[i - 1];
      }
    }
  }

  lemma LinkBeforeNext(next: seq<int>, prev: seq<int>, r: seq<int>, k: nat)
    requires IsRing(next, prev, r) && k < |r|
    ensures 0 <= prev[r[k]] < |next|
    ensures var t := LinkBefore(next, prev, |next|, r[k]);
      var r' := InsertAt(r, k, |next|);
      (forall i {:trigger t.0[r'[i]]} :: 0 <= i < |r| ==> t.0[r'[i]] == r'[i + 1]) && t.0[r'[|r|]] == 0
  {
    var n := |r|;
    var x := |next|;
    var at := r[k];
    // x goes to position p of the new listing
    var p := if k == 0 then n else k;
    var before := r[p - 1];
    assert prev[at] == before;
    var t := LinkBefore(next, prev, x, at);
    var r' := InsertAt(r, k, x);
    DistinctPairs(r);
    forall i {:trigger t.0[r'[i]]} | 0 <= i < n ensures t.0[r'[i]] == r'[i + 1] {
      if i < p - 1 {
        assert r'[i] == r[i] && r'[i + 1] == r[i + 1];
        assert next[r[i]] == r[i + 1];
      } else if i == p - 1 {
        assert r'[i] == before && r'[i + 1] == x;
      } else if i == p {
        assert r'[i] == x && r'[i + 1] == at;
      } else {
        assert r'[i] == r[i - 1] && r'[i + 1] == r[i];
        assert next[r[i - 1]] == r[i];
      }
    }
    if k > 0 {
      assert r'[n] == r[n - 1];
    }
  }

  lemma LinkBeforePrev(next: seq<int>, prev: seq<int>, r: seq<int>, k: nat)
    requires IsRing(next, prev, r) && k < |r|
    ensures 0 <= prev[r[k]] < |next|
    ensures var t := LinkBefore(next, prev, |next|, r[k]);
      var r' := InsertAt(r, k, |next|);
      (forall i {:trigger t.1[r'[i]]} :: 0 < i <= |r| ==> t.1[r'[i]] == r'[i - 1]) && t.1[0] == r'[|r|]
  {
    var n := |r|;
    var x := |next|;
    var at := r[k];
    var p := if k == 0 then n else k;
    var before := r[p - 1];
    assert prev[at] == before;
    var t := LinkBefore(next, prev, x, at);
    var r' := InsertAt(r, k, x);
    DistinctPairs(r);
    forall i {:trigger t.1[r'[i]]} | 0 < i <= n ensures t.1[r'[i]] == r'[i - 1] {
      if i < p {
        assert r'[i] == r[i] && r'[i - 1] == r[i - 1];
        assert prev[r[i]] == r[i - 1];
      } else if i == p {
        assert r'[i] == x && r'[i - 1] == before;
      } else if i == p + 1 {
        assert r'[i] == at && r'[i - 1] == x;
      } else {
        assert r'[i] == r[i - 1] && r'[i - 1] == r[i - 2];
        assert prev[r[i - 1]] == r[i - 2];
      }
    }
    if k > 0 {
      assert r'[n] == r[n - 1];
    }
  }

  /** Unlinking ring element d: its neighbours point at each other. */
  function Unlink(next: seq<int>, prev: seq<int>, d: int): (t: (seq<int>, seq<int>))
    requires |next| == |prev| && 0 <= d < |next|
    requires 0 <= next[d] < |next| && 0 <= prev[d] < |next|
    ensures |t.0| == |t.1| == |next|
  {
    var after := next[d];
    var before := prev[d];
    (next[before := after], prev[after := before])
  }

  lemma UnlinkIsRing(next: seq<int>, prev: seq<int>, r: seq<int>, k: nat)
    requires IsRing(next, prev, r) && 0 < k < |r|
    ensures 0 <= next[r[k]] < |next| && 0 <= prev[r[k]] < |next|
    ensures var t := Unlink(next, prev, r[k]);
      IsRing(t.0, t.1, RemoveAt(r, k))
  {
    var n := |r|;
    var d := r[k];
    var after := if k == n - 1 then 0 else r[k + 1];
    var before := r[k - 1];
    assert next[d] == after && prev[d] == before;
    var t := Unlink(next, prev, d);
    var r' := RemoveAt(r, k);
    RemoveAtContents(r, k);
    DistinctPairs(r);
    forall i {:trigger t.0[r'[i]]} | 0 <= i < |r'| - 1 ensures t.0[r'[i]] == r'[i + 1] {
      if i < k - 1 {
        assert r'[i] == r[i] && r'[i + 1] == r[i + 1];
      } else if i == k - 1 {
        assert r'[i] == before && r'[i + 1] == r[k + 1];
      } else {
        assert r'[i] == r[i + 1] && r'[i + 1] == r[i + 2];
      }
    }
    forall i {:trigger t.1[r'[i]]} | 0 < i < |r'| ensures t.1[r'[i]] == r'[i - 1] {
      if i < k {
        assert r'[i] == r[i] && r'[i - 1] == r[i - 1];
      } else if i == k {
        assert r'[i] == r[k + 1] && r'[i - 1] == before;
      } else {
        assert r'[i] == r[i + 1] && r'[i - 1] == r[i];
      }
    }
    if k == n - 1 {
      assert r'[|r'| - 1] == before;
    } else {
      assert r'[|r'| - 1] == r[n - 1];
    }
  }
}
