// The heap algorithms of dbase/stl/heap_algo.h and the partial sort built on them.

module Heaps {
  import opened Rotate

  function Parent(i: int): int {
    (i - 1) / 2
  }

  /** No element from `from` on has a greater child. */
  predicate HeapFrom(s: seq<int>, from: nat) {
    forall c :: 0 < c < |s| && from <= Parent(c) ==> s[c] <= s[Parent(c)]
  }

  predicate Heap(s: seq<int>) {
    HeapFrom(s, 0)
  }

  /** Only `top` may have a greater child, and what is below it fits under its parent. */
  predicate SiftingAt(s: seq<int>, from: nat, top: nat) {
    && from <= top
    && (forall c :: 0 < c < |s| && from <= Parent(c) && Parent(c) != top ==> s[c] <= s[Parent(c)])
    && (from <= Parent(top) && 0 < top < |s| ==> forall c :: 0 < c < |s| && Parent(c) == top ==> s[c] <= s[Parent(top)])
  }

  /** The root is the greatest element. */
  lemma {:induction false} RootIsGreatest(s: seq<int>, i: nat)
    requires Heap(s) && i < |s|
    ensures s[i] <= s[0]
    decreases i
  {
    if i > 0 {
      RootIsGreatest(s, Parent(i));
    }
  }

  function GreaterChild(s: seq<int>, top: nat): (r: nat)
    requires top < |s|
    ensures r == top || (r < |s| && Parent(r) == top && s[r] > s[top])
    ensures forall c :: 0 < c < |s| && Parent(c) == top ==> s[c] <= s[r]
  {
    var l, r := 2 * top + 1, 2 * top + 2;
    var m := if l < |s| && s[top] < s[l] then l else top;
    if r < |s| && s[m] < s[r] then r else m
  }

  lemma SwapElements(s: seq<int>, i: nat, j: nat)
    requires i < j < |s|
    ensures multiset(s[i := s[j]][j := s[i]]) == multiset(s)
  {
    assert s == s[..i] + [s[i]] + s[i + 1..j] + [s[j]] + s[j + 1..];
    assert s[i := s[j]][j := s[i]] == s[..i] + [s[j]] + s[i + 1..j] + [s[i]] + s[j + 1..];
    SameParts(s[..i], s[i], s[i + 1..j], s[j], s[j + 1..]);
  }

  lemma SameParts(p: seq<int>, x: int, m: seq<int>, y: int, q: seq<int>)
    ensures multiset(p + [y] + m + [x] + q) == multiset(p + [x] + m + [y] + q)
  {
  }

  lemma SiftStep(s: seq<int>, from: nat, top: nat)
    requires top < |s| && SiftingAt(s, from, top)
    ensures var r := GreaterChild(s, top);
            && (r == top ==> HeapFrom(s, from))
            && (r != top ==> top < r < |s| && SiftingAt(s[top := s[r]][r := s[top]], from, r))
  {
    var r := GreaterChild(s, top);
    hide GreaterChild;
    if r != top {
      SiftSwap(s, from, top, r);
    }
  }

  lemma SiftSwap(s: seq<int>, from: nat, top: nat, r: nat)
    requires SiftingAt(s, from, top) && top < r < |s| && Parent(r) == top && s[r] > s[top]
    requires forall c :: 0 < c < |s| && Parent(c) == top ==> s[c] <= s[r]
    ensures SiftingAt(s[top := s[r]][r := s[top]], from, r)
  {
    var t := s[top := s[r]][r := s[top]];
    forall c | 0 < c < |t| && from <= Parent(c) && Parent(c) != r
      ensures t[c] <= t[Parent(c)]
    {
      if c == top {
        assert s[r] <= s[Parent(top)];
      }
    }
    forall c | 0 < c < |t| && Parent(c) == r
      ensures t[c] <= t[Parent(r)]
    {
      assert t[c] == s[c];
    }
  }

  lemma SiftStarts(s: seq<int>, hole: nat, value: int)
    requires hole < |s| && HeapFrom(s, hole + 1)
    ensures SiftingAt(s[hole := value], hole, hole)
  {
  }

  /** adjust_heap: puts `value` into the hole and lets it sink. Of an empty heap only the first place is written. */
  method AdjustHeap(a: array<int>, first: nat, holeIndex: nat, len: nat, value: int)
    requires first + len <= a.Length && first + holeIndex < a.Length && (holeIndex < len || holeIndex == len == 0)
    requires HeapFrom(a[first..first + len], holeIndex + 1)
    modifies a
    ensures HeapFrom(a[first..first + len], holeIndex)
    ensures len > 0 ==> multiset(a[first..first + len]) == multiset(old(a[first..first + len])[holeIndex := value])
    ensures len > 0 ==> OnlyWithin(a, first, first + len)
    ensures len == 0 ==> a[..] == old(a[..])[first := value]
  {
    hide HeapFrom, SiftingAt;
    ghost var s0 := a[first..first + len];
    if len > 0 {
      SiftStarts(s0, holeIndex, value);
    } else {
      NothingToSift(s0);
    }
    a[first + holeIndex] := value;
    assert len > 0 ==> a[first..first + len] == s0[holeIndex := value];
    assert len == 0 ==> a[first..first + len] == s0;
    Sink(a, first, holeIndex, len);
  }

  lemma NothingToSift(s: seq<int>)
    requires s == []
    ensures SiftingAt(s, 0, 0)
  {
  }

  lemma NothingSifted(s: seq<int>, from: nat)
    requires s == []
    ensures HeapFrom(s, from)
  {
  }

  /** The loop of adjust_heap. */
  method Sink(a: array<int>, first: nat, holeIndex: nat, len: nat)
    requires first + len <= a.Length && (holeIndex < len || len == 0)
    requires SiftingAt(a[first..first + len], holeIndex, holeIndex)
    modifies a
    ensures HeapFrom(a[first..first + len], holeIndex)
    ensures multiset(a[first..first + len]) == multiset(old(a[first..first + len]))
    ensures OnlyWithin(a, first, first + len)
  {
    hide HeapFrom, SiftingAt, GreaterChild;
    ghost var s0 := a[first..first + len];
    if len == 0 {
      NothingSifted(s0, holeIndex);
    }
    var topIndex := holeIndex;
    while topIndex < len
      invariant topIndex < len || len == 0
      invariant SiftingAt(a[first..first + len], holeIndex, topIndex)
      invariant len == 0 ==> HeapFrom(a[first..first + len], holeIndex)
      invariant multiset(a[first..first + len]) == multiset(s0)
      invariant OnlyWithin(a, first, first + len)
      decreases len - topIndex
    {
      ghost var s := a[first..first + len];
      SiftStep(s, holeIndex, topIndex);
      var oldTopIndex := topIndex;
      topIndex := Child(a, first, len, topIndex);
      if topIndex == oldTopIndex {
        break;
      }
      SwapElements(s, oldTopIndex, topIndex);
      Exchange(a, first, len, oldTopIndex, topIndex);
    }
  }

  method Put(a: array<int>, first: nat, ghost len: nat, i: nat, value: int)
    requires first + len <= a.Length && i < len
    modifies a
    ensures a[first..first + len] == old(a[first..first + len])[i := value]
    ensures OnlyWithin(a, first, first + len)
  {
    a[first + i] := value;
  }

  method Exchange(a: array<int>, first: nat, ghost len: nat, i: nat, j: nat)
    requires first + len <= a.Length && i < j < len
    modifies a
    ensures var s := old(a[first..first + len]); a[first..first + len] == s[i := s[j]][j := s[i]]
    ensures OnlyWithin(a, first, first + len)
  {
    a[first + i], a[first + j] := a[first + j], a[first + i];
  }

  method Child(a: array<int>, first: nat, len: nat, oldTop: nat) returns (topIndex: nat)
    requires first + len <= a.Length && oldTop < len
    ensures topIndex == GreaterChild(a[first..first + len], oldTop)
  {
    ghost var s := a[first..first + len];
    assert forall i :: 0 <= i < len ==> s[i] == a[first + i];
    topIndex := oldTop;
    var lchild, rchild := 2 * topIndex + 1, 2 * topIndex + 2;
    if lchild < len && a[first + topIndex] < a[first + lchild] {
      topIndex := lchild;
    }
    if rchild < len && a[first + topIndex] < a[first + rchild] {
      topIndex := rchild;
    }
  }

  lemma LeavesOnly(s: seq<int>)
    requires |s| >= 2
    ensures HeapFrom(s, (|s| - 2) / 2 + 1)
  {
  }

  lemma TooSmall(s: seq<int>)
    requires |s| < 2
    ensures Heap(s)
  {
  }

  /** make_heap. */
  method MakeHeap(a: array<int>, first: nat, last: nat)
    requires first <= last <= a.Length
    modifies a
    ensures Heap(a[first..last]) && multiset(a[first..last]) == multiset(old(a[first..last]))
    ensures OnlyWithin(a, first, last)
  {
    hide HeapFrom;
    if last - first < 2 {
      TooSmall(a[first..last]);
      return;
    }
    var len := last - first;
    var holeIndex := (len - 2) / 2;
    LeavesOnly(a[first..last]);
    while true
      invariant 0 <= holeIndex < len && HeapFrom(a[first..last], holeIndex + 1)
      invariant multiset(a[first..last]) == multiset(old(a[first..last]))
      invariant OnlyWithin(a, first, last)
      decreases holeIndex
    {
      ghost var s := a[first..last];
      assert s[holeIndex := a[first + holeIndex]] == s;
      AdjustHeap(a, first, holeIndex, len, a[first + holeIndex]);
      if holeIndex == 0 {
        return;
      }
      holeIndex := holeIndex - 1;
    }
  }

  /** pop_heap_aux: the root goes to `result`, `value` takes its part in the heap. */
  method PopHeapAux(a: array<int>, first: nat, last: nat, result: nat, value: int)
    requires first <= last <= result < a.Length && Heap(a[first..last])
    modifies a
    ensures Heap(a[first..last])
    ensures last > first ==> multiset(a[first..last]) == multiset(old(a[first..last])[0 := value])
    ensures last > first ==>
              a[..first] == old(a[..first]) && a[last..] == old(a[last..])[result - last := old(a[first])]
    ensures last == first ==> a[..] == old(a[..])[result := old(a[first])][first := value]
  {
    hide SiftingAt;
    hide HeapFrom;
    ghost var s := a[first..last];
    a[result] := a[first];
    assert a[first..last] == s;
    HeapBelow(s);
    AdjustHeap(a, first, 0, last - first, value);
  }

  lemma HeapBelow(s: seq<int>)
    requires Heap(s)
    ensures HeapFrom(s, 1)
  {
  }

  predicate Ascending(s: seq<int>) {
    forall i, j :: 0 <= i < j < |s| ==> s[i] <= s[j]
  }

  predicate AtMostAll(s: seq<int>, t: seq<int>) {
    forall i, j :: 0 <= i < |s| && 0 <= j < |t| ==> s[i] <= t[j]
  }

  /** A heap in front, and behind it the sorted greatest elements. */
  predicate HalfSorted(s: seq<int>, k: nat) {
    k <= |s| && Heap(s[..k]) && Ascending(s[k..]) && AtMostAll(s[..k], s[k..])
  }

  lemma SameElements(s: seq<int>, t: seq<int>, i: nat)
    requires multiset(s) == multiset(t) && i < |t|
    ensures t[i] in s
  {
    assert t[i] in multiset(t);
  }

  /** Every element of a heap after its root was replaced. */
  lemma AfterReplacing(h: seq<int>, value: int, t: seq<int>, i: nat)
    requires Heap(h) && h != [] && multiset(t) == multiset(h[0 := value]) && i < |t|
    ensures t[i] <= h[0] || t[i] == value
    ensures t[i] in h || t[i] == value
  {
    SameElements(h[0 := value], t, i);
    var j :| 0 <= j < |h| && h[0 := value][j] == t[i];
    RootIsGreatest(h, j);
  }

  /** Popping the root in front of the sorted part. */
  lemma PopStep(s: seq<int>, t: seq<int>, k: nat)
    requires HalfSorted(s, k) && 2 <= k && |t| == |s|
    requires Heap(t[..k - 1]) && multiset(t[..k - 1]) == multiset(s[..k - 1][0 := s[k - 1]])
    requires t[k - 1] == s[0] && t[k..] == s[k..]
    ensures HalfSorted(t, k - 1)
  {
    var front := s[..k - 1];
    assert t[k - 1..] == [s[0]] + s[k..];
    HeapPrefix(s[..k], k - 1);
    assert s[..k][..k - 1] == front && front[0] == s[0];
    RootIsGreatest(s[..k], k - 1);
    var t1, back := t[..k - 1], s[k..];
    forall i | 0 <= i < k - 1
      ensures t1[i] <= s[0]
    {
      AfterReplacing(front, s[k - 1], t1, i);
    }
    forall j | 0 <= j < |back|
      ensures s[0] <= back[j]
    {
      assert s[..k][0] <= back[j];
    }
    hide HeapFrom;
  }

  lemma HeapPrefix(s: seq<int>, k: nat)
    requires Heap(s) && k <= |s|
    ensures Heap(s[..k])
  {
  }

  /** pop_heap. */
  method PopHeap(a: array<int>, first: nat, last: nat, ghost end: nat)
    requires first + 2 <= last <= end <= a.Length && HalfSorted(a[first..end], last - first)
    modifies a
    ensures HalfSorted(a[first..end], last - 1 - first)
    ensures multiset(a[first..end]) == multiset(old(a[first..end]))
    ensures OnlyWithin(a, first, end)
  {
    hide HeapFrom, HalfSorted;
    ghost var u := a[..];
    WholeSlices(a, first, last - 1, end);
    HeapParts(u, first, last - 1, end);
    FrontIsHeap(a[first..end], last - first);
    PopHeapAux(a, first, last - 1, last - 1, a[last - 1]);
    WholeSlices(a, first, last - 1, end);
    Popped(u, a[..], first, last - 1, end);
  }

  lemma WholeSlices(a: array<int>, first: nat, middle: nat, end: nat)
    requires first <= middle <= end <= a.Length
    ensures a[..][..first] == a[..first] && a[..][first..middle] == a[first..middle] && a[..][middle..] == a[middle..]
    ensures a[..][first..end] == a[first..end] && a[..][end..] == a[end..]
  {
  }

  lemma HeapParts(u: seq<int>, first: nat, middle: nat, end: nat)
    requires first <= middle < end <= |u|
    ensures var s, k := u[first..end], middle - first;
            && s[..k] == u[first..middle] && s[k] == u[middle] && s[k + 1..] == u[middle..][1..][..end - middle - 1]
    ensures u[end..] == u[middle..][1..][end - middle - 1..]
  {
  }

  /** What popping does to the range, in terms of the whole array before and after. */
  lemma Popped(u: seq<int>, v: seq<int>, first: nat, middle: nat, end: nat)
    requires first < middle < end <= |u| == |v| && HalfSorted(u[first..end], middle + 1 - first)
    requires Heap(v[first..middle]) && multiset(v[first..middle]) == multiset(u[first..middle][0 := u[middle]])
    requires v[middle..] == u[middle..][0 := u[first]]
    ensures HalfSorted(v[first..end], middle - first)
    ensures multiset(v[first..end]) == multiset(u[first..end]) && v[end..] == u[end..]
  {
    hide HeapFrom, HalfSorted;
    var s, t, k := u[first..end], v[first..end], middle + 1 - first;
    HeapParts(u, first, middle, end);
    HeapParts(v, first, middle, end);
    assert v[middle..][1..] == u[middle..][1..];
    PopStep(s, t, k);
    ReplacedRoot(s, t, k);
  }

  lemma FrontIsHeap(s: seq<int>, k: nat)
    requires HalfSorted(s, k) && 1 <= k
    ensures Heap(s[..k - 1])
  {
    HeapPrefix(s[..k], k - 1);
    assert s[..k][..k - 1] == s[..k - 1];
  }

  /** The root and the last leaf have changed places, up to the order inside the heap. */
  lemma ReplacedRoot(s: seq<int>, t: seq<int>, k: nat)
    requires 2 <= k <= |s| == |t|
    requires multiset(t[..k - 1]) == multiset(s[..k - 1][0 := s[k - 1]]) && t[k - 1] == s[0] && t[k..] == s[k..]
    ensures multiset(t) == multiset(s)
  {
    var u := s[0 := s[k - 1]][k - 1 := s[0]];
    SwapElements(s, 0, k - 1);
    assert u == s[..k - 1][0 := s[k - 1]] + [s[0]] + s[k..];
    assert t == t[..k - 1] + [t[k - 1]] + t[k..];
  }

  lemma AllHeap(s: seq<int>)
    requires Heap(s)
    ensures HalfSorted(s, |s|)
  {
    assert s[..|s|] == s;
  }

  lemma OneLeft(s: seq<int>, k: nat)
    requires HalfSorted(s, k) && k <= 1
    ensures Ascending(s)
  {
    assert forall j :: k <= j < |s| ==> s[j] == s[k..][j - k];
    assert k == 1 ==> s[0] == s[..k][0];
  }

  /** sort_heap. */
  method SortHeap(a: array<int>, first: nat, last0: nat)
    requires first <= last0 <= a.Length && Heap(a[first..last0])
    modifies a
    ensures Ascending(a[first..last0]) && multiset(a[first..last0]) == multiset(old(a[first..last0]))
    ensures OnlyWithin(a, first, last0)
  {
    hide HeapFrom, HalfSorted, Ascending;
    var last := last0;
    AllHeap(a[first..last0]);
    while last - first > 1
      invariant first <= last <= last0 && HalfSorted(a[first..last0], last - first)
      invariant multiset(a[first..last0]) == multiset(old(a[first..last0]))
      invariant OnlyWithin(a, first, last0)
    {
      PopHeap(a, first, last, last0);
      last := last - 1;
    }
    OneLeft(a[first..last0], last - first);
  }
}
