// What a stable sort or merge must produce, independently of how it is done.

module StableOrder {
  /** Only the key takes part in comparisons; the tag tells equal elements apart. */
  datatype Item = Item(key: int, tag: int)

  predicate Sorted(s: seq<Item>) {
    forall i, j :: 0 <= i < j < |s| ==> s[i].key <= s[j].key
  }

  /** The elements with key `k`, in their order. */
  function WithKey(s: seq<Item>, k: int): seq<Item> {
    if s == [] then [] else (if s[0].key == k then [s[0]] else []) + WithKey(s[1..], k)
  }

  /** The same elements, equal keys in the same order. */
  ghost predicate Alike(s: seq<Item>, t: seq<Item>) {
    forall k :: WithKey(s, k) == WithKey(t, k)
  }

  predicate AtMost(s: seq<Item>, t: seq<Item>) {
    forall i, j :: 0 <= i < |s| && 0 <= j < |t| ==> s[i].key <= t[j].key
  }

  predicate Below(s: seq<Item>, t: seq<Item>) {
    forall i, j :: 0 <= i < |s| && 0 <= j < |t| ==> s[i].key < t[j].key
  }

  lemma {:induction false} WithKeyConcat(s: seq<Item>, t: seq<Item>, k: int)
    ensures WithKey(s + t, k) == WithKey(s, k) + WithKey(t, k)
  {
    if s == [] {
      assert s + t == t;
    } else {
      WithKeyConcat(s[1..], t, k);
      assert (s + t)[1..] == s[1..] + t && (s + t)[0] == s[0];
      var h := if s[0].key == k then [s[0]] else [];
      calc {
        WithKey(s + t, k);
        h + WithKey(s[1..] + t, k);
        h + (WithKey(s[1..], k) + WithKey(t, k));
        WithKey(s, k) + WithKey(t, k);
      }
    }
  }

  lemma {:induction false} WithKeyMembers(s: seq<Item>, k: int)
    ensures WithKey(s, k) == [] <==> forall i :: 0 <= i < |s| ==> s[i].key != k
  {
    if s != [] {
      WithKeyMembers(s[1..], k);
      assert forall i :: 0 < i < |s| ==> s[i] == s[1..][i - 1];
    }
  }

  /** Sorting stably leaves no choice: two sorted arrangements with equal keys in the same order are equal. */
  lemma {:induction false} StableUnique(s: seq<Item>, t: seq<Item>)
    requires Sorted(s) && Sorted(t) && Alike(s, t)
    ensures s == t
  {
    if s == [] || t == [] {
      EmptyAlike(s, t);
    } else {
      var k := s[0].key;
      SameFront(s, t);
      SameFront(t, s);
      assert WithKey(s, k)[0] == s[0] && WithKey(t, k)[0] == t[0];
      TailsAlike(s, t);
      StableUnique(s[1..], t[1..]);
      assert s == [s[0]] + s[1..] && t == [t[0]] + t[1..];
    }
  }

  lemma EmptyAlike(s: seq<Item>, t: seq<Item>)
    requires Alike(s, t) && (s == [] || t == [])
    ensures s == t
  {
    var r := if s == [] then t else s;
    if r != [] {
      WithKeyMembers(r, r[0].key);
    }
  }

  lemma SameFront(s: seq<Item>, t: seq<Item>)
    requires Sorted(t) && Alike(s, t) && s != [] && t != []
    ensures t[0].key <= s[0].key
  {
    WithKeyMembers(t, s[0].key);
  }

  lemma TailsAlike(s: seq<Item>, t: seq<Item>)
    requires s != [] && t != [] && s[0] == t[0] && Alike(s, t)
    ensures Alike(s[1..], t[1..])
  {
    forall k
      ensures WithKey(s[1..], k) == WithKey(t[1..], k)
    {
      var h := if s[0].key == k then [s[0]] else [];
      assert WithKey(s, k) == h + WithKey(s[1..], k) && WithKey(t, k) == h + WithKey(t[1..], k);
      assert WithKey(s[1..], k) == WithKey(s, k)[|h|..];
    }
  }

  lemma {:induction false} AlikePermutation(s: seq<Item>, t: seq<Item>)
    requires Alike(s, t)
    ensures multiset(s) == multiset(t)
  {
    forall e: Item
      ensures multiset(s)[e] == multiset(t)[e]
    {
      CountWithKey(s, e);
      CountWithKey(t, e);
    }
  }

  lemma {:induction false} CountWithKey(s: seq<Item>, e: Item)
    ensures multiset(s)[e] == multiset(WithKey(s, e.key))[e]
  {
    if s != [] {
      CountWithKey(s[1..], e);
      assert s == [s[0]] + s[1..];
    }
  }

  /** Merging two runs; of equal keys those of the first run come first. */
  function Merge(x: seq<Item>, y: seq<Item>): (r: seq<Item>)
    ensures |r| == |x| + |y|
  {
    if x == [] then y
    else if y == [] then x
    else if y[0].key < x[0].key then [y[0]] + Merge(x, y[1..])
    else [x[0]] + Merge(x[1..], y)
  }

  /** `b` bounds all keys of `s` from below. */
  predicate From(b: int, s: seq<Item>) {
    forall i :: 0 <= i < |s| ==> b <= s[i].key
  }

  predicate UpTo(s: seq<Item>, b: int) {
    forall i :: 0 <= i < |s| ==> s[i].key <= b
  }

  lemma {:induction false} MergeBounds(x: seq<Item>, y: seq<Item>, lo: int, hi: int)
    ensures From(lo, x) && From(lo, y) ==> From(lo, Merge(x, y))
    ensures UpTo(x, hi) && UpTo(y, hi) ==> UpTo(Merge(x, y), hi)
  {
    if x != [] && y != [] {
      if y[0].key < x[0].key {
        MergeBounds(x, y[1..], lo, hi);
      } else {
        MergeBounds(x[1..], y, lo, hi);
      }
    }
  }

  lemma SortedFront(e: Item, s: seq<Item>)
    requires Sorted(s) && From(e.key, s)
    ensures Sorted([e] + s)
  {
  }

  lemma {:induction false} MergeSorted(x: seq<Item>, y: seq<Item>)
    requires Sorted(x) && Sorted(y)
    ensures Sorted(Merge(x, y))
  {
    if x != [] && y != [] {
      if y[0].key < x[0].key {
        MergeSorted(x, y[1..]);
        MergeBounds(x, y[1..], y[0].key, 0);
        SortedFront(y[0], Merge(x, y[1..]));
      } else {
        MergeSorted(x[1..], y);
        MergeBounds(x[1..], y, x[0].key, 0);
        SortedFront(x[0], Merge(x[1..], y));
      }
    }
  }

  /** Nothing is lost and equal keys keep their order, those of the first run in front. */
  lemma {:induction false} MergeStable(x: seq<Item>, y: seq<Item>, k: int)
    requires Sorted(x) && Sorted(y)
    ensures WithKey(Merge(x, y), k) == WithKey(x, k) + WithKey(y, k)
  {
    if x != [] && y != [] {
      MergeHead(x, y);
      hide WithKey, Merge;
      if y[0].key < x[0].key {
        MergeStable(x, y[1..], k);
        WithKeyHead(y[0], Merge(x, y[1..]), k);
        WithKeyHead(y[0], y[1..], k);
        if y[0].key == k {
          NoneWithKey(x, k);
        }
        PassesBy(if y[0].key == k then [y[0]] else [], WithKey(x, k), WithKey(y[1..], k));
      } else {
        MergeStable(x[1..], y, k);
        WithKeyHead(x[0], Merge(x[1..], y), k);
        WithKeyHead(x[0], x[1..], k);
        PassesBy(if x[0].key == k then [x[0]] else [], WithKey(x[1..], k), WithKey(y, k));
      }
    }
  }

  lemma MergeHead(x: seq<Item>, y: seq<Item>)
    requires x != [] && y != []
    ensures x == [x[0]] + x[1..] && y == [y[0]] + y[1..]
    ensures Merge(x, y) == if y[0].key < x[0].key then [y[0]] + Merge(x, y[1..]) else [x[0]] + Merge(x[1..], y)
  {
  }

  lemma PassesBy(h: seq<Item>, a: seq<Item>, b: seq<Item>)
    ensures h + (a + b) == (h + a) + b
    ensures h == [] || a == [] ==> h + (a + b) == a + (h + b)
  {
  }

  lemma WithKeyHead(e: Item, s: seq<Item>, k: int)
    ensures WithKey([e] + s, k) == (if e.key == k then [e] else []) + WithKey(s, k)
  {
    assert ([e] + s)[1..] == s;
  }

  lemma NoneWithKey(s: seq<Item>, k: int)
    requires s != [] && Sorted(s) && k < s[0].key
    ensures WithKey(s, k) == []
  {
    WithKeyMembers(s, k);
  }

  /** `r` holds the elements of both runs in order, of equal keys those of the first run first. */
  ghost predicate MergesStably(x: seq<Item>, y: seq<Item>, r: seq<Item>) {
    Sorted(r) && forall k :: WithKey(r, k) == WithKey(x, k) + WithKey(y, k)
  }

  /** There is exactly one such arrangement. */
  lemma MergeUnique(x: seq<Item>, y: seq<Item>, r: seq<Item>)
    requires Sorted(x) && Sorted(y)
    ensures MergesStably(x, y, r) <==> r == Merge(x, y)
  {
    hide Merge, Sorted, WithKey;
    MergeSorted(x, y);
    forall k
      ensures WithKey(Merge(x, y), k) == WithKey(x, k) + WithKey(y, k)
    {
      MergeStable(x, y, k);
    }
    if MergesStably(x, y, r) {
      assert Alike(r, Merge(x, y));
      StableUnique(r, Merge(x, y));
    }
  }

  lemma SortedConcat(s: seq<Item>, t: seq<Item>)
    ensures Sorted(s + t) <==> Sorted(s) && Sorted(t) && AtMost(s, t)
  {
    var r := s + t;
    if Sorted(r) {
      assert s == r[..|s|] && t == r[|s|..];
      forall i, j | 0 <= i < |s| && 0 <= j < |t|
        ensures s[i].key <= t[j].key
      {
        assert r[i].key <= r[|s| + j].key;
      }
    } else {
      var i, j :| 0 <= i < j < |r| && r[i].key > r[j].key;
      if j < |s| {
        assert s[i].key > s[j].key;
      } else if i < |s| {
        assert s[i].key > t[j - |s|].key;
      } else {
        assert t[i - |s|].key > t[j - |s|].key;
      }
    }
  }

  /** Two runs cut so that nothing has to cross can be merged part by part. */
  lemma MergeSplit(x1: seq<Item>, x2: seq<Item>, y1: seq<Item>, y2: seq<Item>)
    requires Sorted(x1 + x2) && Sorted(y1 + y2) && AtMost(x1, y2) && Below(y1, x2)
    ensures Merge(x1 + x2, y1 + y2) == Merge(x1, y1) + Merge(x2, y2)
  {
    SortedConcat(x1, x2);
    SortedConcat(y1, y2);
    MergeSorted(x1, y1);
    MergeSorted(x2, y2);
    PartsAtMost(x1, y1, x2, y2);
    SortedConcat(Merge(x1, y1), Merge(x2, y2));
    forall k
      ensures WithKey(Merge(x1, y1) + Merge(x2, y2), k) == WithKey(x1 + x2, k) + WithKey(y1 + y2, k)
    {
      SplitWithKey(x1, x2, y1, y2, k);
    }
    hide Merge, Sorted, WithKey, AtMost, Below;
    MergeUnique(x1 + x2, y1 + y2, Merge(x1, y1) + Merge(x2, y2));
  }

  lemma SplitWithKey(x1: seq<Item>, x2: seq<Item>, y1: seq<Item>, y2: seq<Item>, k: int)
    requires Sorted(x1) && Sorted(x2) && Sorted(y1) && Sorted(y2) && Below(y1, x2)
    ensures WithKey(Merge(x1, y1) + Merge(x2, y2), k) == WithKey(x1 + x2, k) + WithKey(y1 + y2, k)
  {
    WithKeyConcat(Merge(x1, y1), Merge(x2, y2), k);
    WithKeyConcat(x1, x2, k);
    WithKeyConcat(y1, y2, k);
    MergeStable(x1, y1, k);
    MergeStable(x2, y2, k);
    WithKeyMembers(y1, k);
    WithKeyMembers(x2, k);
    assert WithKey(y1, k) == [] || WithKey(x2, k) == [];
    hide WithKey, Merge;
    Regroup(WithKey(x1, k), WithKey(y1, k), WithKey(x2, k), WithKey(y2, k));
  }

  lemma Regroup(a: seq<Item>, b: seq<Item>, c: seq<Item>, d: seq<Item>)
    requires b == [] || c == []
    ensures (a + b) + (c + d) == (a + c) + (b + d)
  {
  }

  lemma {:induction false} MergeMembers(x: seq<Item>, y: seq<Item>, i: int)
    requires 0 <= i < |Merge(x, y)|
    ensures Merge(x, y)[i] in x || Merge(x, y)[i] in y
  {
    if x != [] && y != [] && i > 0 {
      if y[0].key < x[0].key {
        MergeMembers(x, y[1..], i - 1);
      } else {
        MergeMembers(x[1..], y, i - 1);
      }
    }
  }

  lemma PartsAtMost(x1: seq<Item>, y1: seq<Item>, x2: seq<Item>, y2: seq<Item>)
    requires AtMost(x1, x2) && AtMost(y1, y2) && AtMost(x1, y2) && Below(y1, x2)
    ensures AtMost(Merge(x1, y1), Merge(x2, y2))
  {
    hide Merge;
    forall i, j | 0 <= i < |Merge(x1, y1)| && 0 <= j < |Merge(x2, y2)|
      ensures Merge(x1, y1)[i].key <= Merge(x2, y2)[j].key
    {
      MergeMembers(x1, y1, i);
      MergeMembers(x2, y2, j);
    }
  }

  /** The last element of a merge: that of the second run, unless the first run ends higher. */
  lemma MergeBack(x: seq<Item>, y: seq<Item>, a: Item, b: Item)
    requires Sorted(x + [a]) && Sorted(y + [b])
    ensures b.key < a.key ==> Merge(x + [a], y + [b]) == Merge(x, y + [b]) + [a]
    ensures b.key >= a.key ==> Merge(x + [a], y + [b]) == Merge(x + [a], y) + [b]
  {
    SortedConcat(x, [a]);
    SortedConcat(y, [b]);
    if b.key < a.key {
      assert y + [b] == (y + [b]) + [];
      assert Below(y + [b], [a]) by {
        assert forall i :: 0 <= i < |y| ==> y[i].key <= [b][0].key;
      }
      MergeSplit(x, [a], y + [b], []);
    } else {
      assert x + [a] == (x + [a]) + [];
      assert AtMost(x + [a], [b]) by {
        assert forall i :: 0 <= i < |x| ==> x[i].key <= [a][0].key;
      }
      MergeSplit(x + [a], [], y, [b]);
    }
  }
}
