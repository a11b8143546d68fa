// partial_sort of dbase/stl/algo.h.

module PartialSort {
  import opened Heaps

  /** The first m elements form a heap, and none of them exceeds an element of s[m..i]. */
  predicate Selected(s: seq<int>, m: nat, i: nat) {
    m <= i <= |s| && Heap(s[..m]) && AtMostAll(s[..m], s[m..i])
  }

  lemma SelectKeep(s: seq<int>, m: nat, i: nat)
    requires Selected(s, m, i) && i < |s| && (m > 0 ==> s[i] >= s[0])
    ensures Selected(s, m, i + 1)
  {
    assert s[m..i + 1] == s[m..i] + [s[i]];
    var h := s[..m];
    forall x | 0 <= x < m
      ensures h[x] <= s[i]
    {
      RootIsGreatest(h, x);
    }
    hide HeapFrom;
  }

  /** A smaller element has taken the root's part in the heap. */
  lemma SelectReplace(s: seq<int>, t: seq<int>, m: nat, i: nat)
    requires Selected(s, m, i) && 0 < m && i < |s| == |t| && s[i] < s[0]
    requires Heap(t[..m]) && multiset(t[..m]) == multiset(s[..m][0 := s[i]]) && t[m..] == s[m..][i - m := s[0]]
    ensures Selected(t, m, i + 1) && multiset(t) == multiset(s)
  {
    var h, f, back := s[..m], t[..m], s[m..i];
    assert t[m..i + 1] == back + [s[0]] by {
      assert t[m..i + 1] == t[m..][..i + 1 - m];
    }
    forall x, y | 0 <= x < m && 0 <= y < |back|
      ensures f[x] <= back[y]
    {
      AfterReplacing(h, s[i], f, x);
      assert h[0] <= back[y];
    }
    forall x | 0 <= x < m
      ensures f[x] <= s[0]
    {
      AfterReplacing(h, s[i], f, x);
    }
    hide HeapFrom;
    ExchangedRoot(s, t, m, i);
  }

  lemma ExchangedRoot(s: seq<int>, t: seq<int>, m: nat, i: nat)
    requires 0 < m <= i < |s| == |t|
    requires multiset(t[..m]) == multiset(s[..m][0 := s[i]]) && t[m..] == s[m..][i - m := s[0]]
    ensures multiset(t) == multiset(s)
  {
    SwapElements(s, 0, i);
    assert s[0 := s[i]][i := s[0]] == s[..m][0 := s[i]] + s[m..][i - m := s[0]];
    assert t == t[..m] + t[m..];
  }

  /** The heap only changes its order. */
  lemma SelectSorted(s: seq<int>, t: seq<int>, m: nat)
    requires Selected(s, m, |s|) && |t| == |s| && multiset(t[..m]) == multiset(s[..m]) && t[m..] == s[m..]
    ensures AtMostAll(t[..m], t[m..]) && multiset(t) == multiset(s)
  {
    var h, f, back := s[..m], t[..m], s[m..];
    forall x, y | 0 <= x < m && 0 <= y < |back|
      ensures f[x] <= back[y]
    {
      SameElements(h, f, x);
    }
    assert t == f + t[m..] && s == h + back;
  }

  /** What replacing the root does to the range, in terms of the whole array before and after. */
  lemma Displaced(u: seq<int>, v: seq<int>, first: nat, middle: nat, i: nat, last: nat)
    requires first < middle <= i < last <= |u| == |v| && u[i] < u[first]
    requires Selected(u[first..last], middle - first, i - first)
    requires Heap(v[first..middle]) && multiset(v[first..middle]) == multiset(u[first..middle][0 := u[i]])
    requires v[..first] == u[..first] && v[middle..] == u[middle..][i - middle := u[first]]
    ensures Selected(v[first..last], middle - first, i + 1 - first)
    ensures multiset(v[first..last]) == multiset(u[first..last]) && v[last..] == u[last..]
  {
    hide HeapFrom, Selected;
    var s, t, m := u[first..last], v[first..last], middle - first;
    RangeParts(u, first, middle, last);
    RangeParts(v, first, middle, last);
    BehindHeap(u[middle..], v[middle..], last - middle, i - middle, u[first]);
    SelectReplace(s, t, m, i - first);
  }

  lemma BehindHeap(s: seq<int>, t: seq<int>, n: nat, k: nat, e: int)
    requires k < n <= |s| && t == s[k := e]
    ensures t[..n] == s[..n][k := e] && t[n..] == s[n..]
  {
  }

  /** With an empty front the element and the first one just change places. */
  lemma SwappedWithFirst(u: seq<int>, v: seq<int>, first: nat, i: nat, last: nat)
    requires first < i < last <= |u| && v == u[i := u[first]][first := u[i]]
    requires Selected(u[first..last], 0, i - first)
    ensures Selected(v[first..last], 0, i + 1 - first)
    ensures multiset(v[first..last]) == multiset(u[first..last]) && v[..first] == u[..first] && v[last..] == u[last..]
  {
    var s, n := u[first..last], i - first;
    SwapElements(s, 0, n);
    assert v[first..last] == s[0 := s[n]][n := s[0]];
  }

  lemma Snapshot(a: array<int>, first: nat, middle: nat, last: nat)
    requires first <= middle <= last <= a.Length
    ensures a[..][..first] == a[..first] && a[..][first..middle] == a[first..middle] && a[..][middle..] == a[middle..]
    ensures a[..][first..last] == a[first..last] && a[..][last..] == a[last..] && a[..][middle..last] == a[middle..last]
  {
  }

  /** The smaller element at i takes the root's part, the root goes to i. */
  method Displace(a: array<int>, first: nat, middle: nat, i: nat, last: nat)
    requires first <= middle <= i < last <= a.Length && a[i] < a[first]
    requires Selected(a[first..last], middle - first, i - first)
    modifies a
    ensures Selected(a[first..last], middle - first, i + 1 - first)
    ensures multiset(a[first..last]) == multiset(old(a[first..last]))
    ensures a[..first] == old(a[..first]) && a[last..] == old(a[last..])
  {
    hide HeapFrom, Selected;
    ghost var u := a[..];
    Snapshot(a, first, middle, last);
    SelectedHeap(a[first..last], middle - first, i - first);
    assert a[first..middle] == a[first..last][..middle - first];
    PopHeapAux(a, first, middle, i, a[i]);
    Snapshot(a, first, middle, last);
    if middle > first {
      Displaced(u, a[..], first, middle, i, last);
    } else {
      SwappedWithFirst(u, a[..], first, i, last);
    }
  }

  lemma SelectedHeap(s: seq<int>, m: nat, i: nat)
    requires Selected(s, m, i)
    ensures m <= i <= |s| && Heap(s[..m])
  {
  }

  lemma SelectBegins(s: seq<int>, m: nat)
    requires m <= |s| && Heap(s[..m])
    ensures Selected(s, m, m)
  {
  }

  /** Rearranging the front only. */
  lemma FrontRearranged(s: seq<int>, t: seq<int>, m: nat)
    requires m <= |s| == |t| && multiset(t[..m]) == multiset(s[..m]) && t[m..] == s[m..]
    ensures multiset(t) == multiset(s)
  {
    assert t == t[..m] + t[m..] && s == s[..m] + s[m..];
  }

  lemma RangeParts(u: seq<int>, first: nat, middle: nat, last: nat)
    requires first <= middle <= last <= |u|
    ensures u[first..last][..middle - first] == u[first..middle] && u[first..last][middle - first..] == u[middle..last]
    ensures u[middle..last] == u[middle..][..last - middle] && u[last..] == u[middle..][last - middle..]
  {
  }

  /** Sorting the selected front of a range, in terms of the whole array before and after. */
  lemma FrontSorted(u: seq<int>, v: seq<int>, first: nat, middle: nat, last: nat)
    requires first <= middle <= last <= |u| == |v| && Selected(u[first..last], middle - first, last - first)
    requires multiset(v[first..middle]) == multiset(u[first..middle]) && v[middle..] == u[middle..]
    ensures AtMostAll(v[first..middle], v[middle..last])
    ensures multiset(v[first..last]) == multiset(u[first..last]) && v[last..] == u[last..]
  {
    hide Selected, AtMostAll;
    RangeParts(u, first, middle, last);
    RangeParts(v, first, middle, last);
    SelectSorted(u[first..last], v[first..last], middle - first);
  }

  /** The middle - first smallest elements in ascending order, in front of all the others. */
  method PartiallySort(a: array<int>, first: nat, middle: nat, last: nat)
    requires first <= middle <= last <= a.Length
    modifies a
    ensures Ascending(a[first..middle]) && AtMostAll(a[first..middle], a[middle..last])
    ensures multiset(a[first..last]) == multiset(old(a[first..last]))
    ensures a[..first] == old(a[..first]) && a[last..] == old(a[last..])
  {
    hide HeapFrom, Selected, Ascending, AtMostAll;
    ghost var m := middle - first;
    HeapFront(a, first, middle, last);
    var i := middle;
    while i < last
      invariant middle <= i <= last && Selected(a[first..last], m, i - first)
      invariant multiset(a[first..last]) == multiset(old(a[first..last]))
      invariant a[..first] == old(a[..first]) && a[last..] == old(a[last..])
    {
      assert a[first..last][0] == a[first] && a[first..last][i - first] == a[i];
      if a[i] < a[first] {
        Displace(a, first, middle, i, last);
      } else {
        SelectKeep(a[first..last], m, i - first);
      }
      i := i + 1;
    }
    SortFront(a, first, middle, last);
  }

  method HeapFront(a: array<int>, first: nat, middle: nat, last: nat)
    requires first <= middle <= last <= a.Length
    modifies a
    ensures Selected(a[first..last], middle - first, middle - first)
    ensures multiset(a[first..last]) == multiset(old(a[first..last]))
    ensures a[..first] == old(a[..first]) && a[last..] == old(a[last..])
  {
    hide HeapFrom, Selected;
    ghost var u := a[..];
    Snapshot(a, first, middle, last);
    MakeHeap(a, first, middle);
    Snapshot(a, first, middle, last);
    FrontHeap(u, a[..], first, middle, last);
  }

  /** Making the front of a range a heap, in terms of the whole array before and after. */
  lemma FrontHeap(u: seq<int>, v: seq<int>, first: nat, middle: nat, last: nat)
    requires first <= middle <= last <= |u| == |v| && Heap(v[first..middle])
    requires multiset(v[first..middle]) == multiset(u[first..middle]) && v[middle..] == u[middle..]
    ensures Selected(v[first..last], middle - first, middle - first)
    ensures multiset(v[first..last]) == multiset(u[first..last]) && v[last..] == u[last..]
  {
    hide HeapFrom, Selected;
    RangeParts(u, first, middle, last);
    RangeParts(v, first, middle, last);
    FrontRearranged(u[first..last], v[first..last], middle - first);
    SelectBegins(v[first..last], middle - first);
  }

  method SortFront(a: array<int>, first: nat, middle: nat, last: nat)
    requires first <= middle <= last <= a.Length && Selected(a[first..last], middle - first, last - first)
    modifies a
    ensures Ascending(a[first..middle]) && AtMostAll(a[first..middle], a[middle..last])
    ensures multiset(a[first..last]) == multiset(old(a[first..last]))
    ensures a[..first] == old(a[..first]) && a[last..] == old(a[last..])
  {
    hide HeapFrom, Selected, Ascending, AtMostAll;
    ghost var u := a[..];
    Snapshot(a, first, middle, last);
    SelectedHeap(a[first..last], middle - first, last - first);
    assert a[first..last][..middle - first] == a[first..middle];
    SortHeap(a, first, middle);
    Snapshot(a, first, middle, last);
    FrontSorted(u, a[..], first, middle, last);
  }
}
