// list_sort of dbase/stl/list.h: a merge sort that only relinks nodes.

module ListSort {
  import opened StableOrder
  import opened ListNodes

  /** The run of smaller elements at the front of the second range goes in front of the first range. */
  lemma {:induction false} MergeRun(x: seq<Item>, y: seq<Item>, k: nat)
    requires x != [] && k <= |y|
    requires forall i :: 0 <= i < k ==> y[i].key < x[0].key
    requires k < |y| ==> x[0].key <= y[k].key
    ensures Merge(x, y) == y[..k] + [x[0]] + Merge(x[1..], y[k..])
  {
    hide Merge;
    if k > 0 {
      MergeRun(x, y[1..], k - 1);
      MergeHead(x, y);
      OneMoreInFront(y, k, [x[0]], Merge(x[1..], y[k..]));
    } else {
      assert y[0..] == y && y[..0] == [];
      if y == [] {
        MergeNothing(x);
      } else {
        MergeHead(x, y);
      }
    }
  }

  lemma OneMoreInFront(y: seq<Item>, k: nat, e: seq<Item>, m: seq<Item>)
    requires 0 < k <= |y|
    ensures y[1..][k - 1..] == y[k..]
    ensures [y[0]] + (y[1..][..k - 1] + e + m) == y[..k] + e + m
  {
    assert y[..k] == [y[0]] + y[1..][..k - 1];
  }

  lemma MergeNothing(x: seq<Item>)
    requires x != []
    ensures Merge(x, []) == [x[0]] + Merge(x[1..], [])
  {
  }

  /** Part way through a merge: p[1..a] is done, the runs p[a..c] and p[c..|p|-1] are still to be merged. */
  ghost predicate Merging(p: seq<Node>, a: nat, c: nat, goal: seq<Item>) {
    1 <= a <= c < |p| && goal == Items(p[1..a]) + Merge(Items(p[a..c]), Items(p[c..|p| - 1]))
  }

  lemma ItemsConcat(p: seq<Node>, q: seq<Node>)
    ensures Items(p + q) == Items(p) + Items(q)
  {
  }

  lemma MovedPlaces(p: seq<Node>, a: nat, c: nat, d: nat)
    requires 1 <= a < c <= d < |p|
    ensures var q, a' := Moved(p, a, c, d), a + (d - c) + 1;
            && |q| == |p| && q[1..a'] == p[1..a] + p[c..d] + [p[a]] && q[a'..d] == p[a + 1..c] && q[d..] == p[d..]
            && q[d..|q| - 1] == p[d..|p| - 1]
            && q[a' - 1] == p[a] && q[d] == p[d]
            && (d > c ==> q[a] == p[c]) && (d == c ==> q == p)
            && forall i :: 0 <= i < a ==> q[i] == p[i]
  {
    MovedParts(p, a, c, d);
    StretchesOfFour(p[..a], p[c..d], p[a..c], p[d..]);
    hide Moved;
    SlicesOfSlices(p, a, c, d);
    if d == c {
      NothingMoved(p, a, c);
    }
  }

  lemma SlicesOfSlices(p: seq<Node>, a: nat, c: nat, d: nat)
    requires 1 <= a < c <= d < |p|
    ensures p[..a][1..] == p[1..a] && p[a..c][1..] == p[a + 1..c] && p[d..][..|p| - d - 1] == p[d..|p| - 1]
    ensures |p[..a]| == a && |p[c..d]| == d - c && |p[a..c]| == c - a && |p[d..]| == |p| - d
  {
  }

  lemma NothingMoved(p: seq<Node>, a: nat, c: nat)
    requires a <= c <= |p|
    ensures p[..a] + p[c..c] + p[a..c] + p[c..] == p
  {
  }

  lemma StretchesOfFour(w: seq<Node>, x: seq<Node>, y: seq<Node>, z: seq<Node>)
    requires w != [] && y != [] && z != []
    ensures var q, m := w + x + y + z, |w| + |x|;
            && |q| == m + |y| + |z| && q[1..m + 1] == w[1..] + x + [y[0]] && q[m + 1..m + |y|] == y[1..]
            && q[m + |y|..] == z && q[m + |y|..|q| - 1] == z[..|z| - 1] && q[m] == y[0] && q[m + |y|] == z[0]
            && (x != [] ==> q[|w|] == x[0]) && forall i :: 0 <= i < |w| ==> q[i] == w[i]
  {
  }

  lemma MovedStretches(p: seq<Node>, a: nat, c: nat, d: nat)
    requires 1 <= a < c <= d < |p|
    ensures var q, a' := Moved(p, a, c, d), a + (d - c) + 1;
            && |q| == |p| && q[1..a'] == p[1..a] + p[c..d] + [p[a]] && q[a'..d] == p[a + 1..c]
            && q[d..|q| - 1] == p[d..|p| - 1]
  {
    MovedPlaces(p, a, c, d);
  }

  /** Moving the run of smaller elements and stepping over the element they were smaller than. */
  lemma MergingStep(p: seq<Node>, a: nat, c: nat, d: nat, goal: seq<Item>)
    requires Merging(p, a, c, goal) && a < c <= d < |p|
    requires forall i :: c <= i < d ==> p[i].item.key < p[a].item.key
    requires d < |p| - 1 ==> p[a].item.key <= p[d].item.key
    ensures Merging(Moved(p, a, c, d), a + (d - c) + 1, d, goal)
  {
    hide Merge, Moved, Items;
    RunMerged(p, a, c, d);
    StepItems(p, a, c, d);
    MovedStretches(p, a, c, d);
    Regrouped(goal, Items(p[1..a]), Items(p[c..d]), Items([p[a]]), Merge(Items(p[a + 1..c]), Items(p[d..|p| - 1])));
  }

  lemma RunMerged(p: seq<Node>, a: nat, c: nat, d: nat)
    requires 1 <= a < c <= d < |p|
    requires forall i :: c <= i < d ==> p[i].item.key < p[a].item.key
    requires d < |p| - 1 ==> p[a].item.key <= p[d].item.key
    ensures var x, y := Items(p[a..c]), Items(p[c..|p| - 1]);
            x != [] && d - c <= |y| && Merge(x, y) == y[..d - c] + [x[0]] + Merge(x[1..], y[d - c..])
  {
    hide Merge;
    MergeRun(Items(p[a..c]), Items(p[c..|p| - 1]), d - c);
  }

  lemma Regrouped<T>(goal: seq<T>, w: seq<T>, x: seq<T>, y: seq<T>, z: seq<T>)
    requires goal == w + (x + y + z)
    ensures goal == (w + x + y) + z
  {
  }

  lemma StepItems(p: seq<Node>, a: nat, c: nat, d: nat)
    requires 1 <= a < c <= d < |p|
    ensures Items(p[c..|p| - 1])[..d - c] == Items(p[c..d]) && Items(p[c..|p| - 1])[d - c..] == Items(p[d..|p| - 1])
    ensures Items(p[a..c])[1..] == Items(p[a + 1..c]) && [Items(p[a..c])[0]] == Items([p[a]])
    ensures Items(p[1..a] + p[c..d] + [p[a]]) == Items(p[1..a]) + Items(p[c..d]) + Items([p[a]])
  {
    ItemsConcat(p[1..a], p[c..d]);
    ItemsConcat(p[1..a] + p[c..d], [p[a]]);
  }

  lemma MergingEnds(p: seq<Node>, a: nat, c: nat, goal: seq<Item>)
    requires Merging(p, a, c, goal) && (a == c || c == |p| - 1)
    ensures Items(Inner(p)) == goal
  {
    OneRunLeft(p[1..a], p[a..c], p[c..|p| - 1]);
    hide Merge, Items;
    assert p[1..|p| - 1] == p[1..a] + p[a..c] + p[c..|p| - 1];
  }

  lemma OneRunLeft(w: seq<Node>, x: seq<Node>, y: seq<Node>)
    requires x == [] || y == []
    ensures Items(w) + Merge(Items(x), Items(y)) == Items(w + x + y)
  {
    ItemsConcat(w, x);
    ItemsConcat(w + x, y);
    assert Merge(Items(x), Items(y)) == Items(x) + Items(y);
  }

  lemma SimpleAt(p: seq<Node>, i: nat, j: nat)
    requires Simple(p) && 1 <= i < |p| && 1 <= j < |p|
    ensures p[i] == p[j] <==> i == j
  {
  }

  /** Two neighbours of a path. */
  lemma LinkAt(p: seq<Node>, i: nat)
    requires Path(p) && i + 1 < |p|
    ensures p[i].next == p[i + 1] && p[i + 1].prev == p[i]
  {
  }

  /** Finds the end of the run of smaller elements at p[c] and moves it in front of p[a]. */
  method MoveRun(f1: Node, f2: Node, l2: Node, ghost p: seq<Node>, ghost a: nat, ghost c: nat)
    returns (m: Node, ghost d: nat)
    requires 1 <= a < c < |p| - 1 && f1 == p[a] && f2 == p[c] && l2 == p[|p| - 1]
    requires Simple(p) && Path(p) && f2.item.key < f1.item.key
    modifies NodeSet(p), {p[0]}`next, {p[|p| - 1]}`prev
    ensures c < d < |p| && m == p[d]
    ensures forall i :: c <= i < d ==> p[i].item.key < p[a].item.key
    ensures d < |p| - 1 ==> p[a].item.key <= p[d].item.key
    ensures Path(Moved(p, a, c, d))
  {
    hide Simple, Path;
    LinkAt(p, c);
    m := f2.next;
    d := c + 1;
    while m != l2 && m.item.key < f1.item.key
      invariant c < d < |p| && m == p[d] && Path(p)
      invariant forall i :: c <= i < d ==> p[i].item.key < p[a].item.key
      decreases |p| - d
    {
      SimpleAt(p, d, |p| - 1);
      LinkAt(p, d);
      m := m.next;
      d := d + 1;
    }
    SimpleAt(p, d, |p| - 1);
    LinkAt(p, d - 1);
    var l: Node := m.prev;
    WithinStretch(p, a, c, d);
    MoveBefore(f1, f2, l, p, a, c, d);
  }

  /** The links that are rewritten belong to the stretch. */
  lemma WithinStretch(p: seq<Node>, a: nat, c: nat, d: nat)
    requires 1 <= a < c < d < |p|
    ensures p[a - 1] in Inner(p) || p[a - 1] == p[0]
    ensures p[c - 1] in Inner(p) && p[d - 1] in Inner(p) && p[a] in Inner(p) && p[c] in Inner(p)
    ensures p[d] in Inner(p) || p[d] == p[|p| - 1]
  {
    assert forall i :: 1 <= i < |p| - 1 ==> p[i] == Inner(p)[i - 1];
    assert d < |p| - 1 ==> p[d] == Inner(p)[d - 1];
    assert a > 1 ==> p[a - 1] == Inner(p)[a - 2];
    assert p[c - 1] == Inner(p)[c - 2] && p[d - 1] == Inner(p)[d - 2] && p[a] == Inner(p)[a - 1]
        && p[c] == Inner(p)[c - 1];
  }

  lemma SameNodes(p: seq<Node>, q: seq<Node>)
    requires Rearranged(p, q)
    ensures NodeSet(q) == NodeSet(p)
  {
    hide Simple;
    forall n: Node
      ensures n in Inner(q) <==> n in Inner(p)
    {
      assert n in Inner(q) <==> n in multiset(Inner(q));
      assert n in Inner(p) <==> n in multiset(Inner(p));
    }
  }

  lemma RearrangedAgain(p: seq<Node>, q: seq<Node>, a: nat, c: nat, d: nat)
    requires Rearranged(p, q) && 1 <= a <= c <= d < |q|
    ensures Rearranged(p, Moved(q, a, c, d))
  {
    MovedRearranged(q, a, c, d);
  }

  /** What a step of the merge keeps, with or without a run that is moved. */
  lemma StepKeeps(p0: seq<Node>, p: seq<Node>, a: nat, c: nat, d: nat, goal: seq<Item>)
    requires Rearranged(p0, p) && Merging(p, a, c, goal) && a < c <= d < |p|
    requires forall i :: c <= i < d ==> p[i].item.key < p[a].item.key
    requires d < |p| - 1 ==> p[a].item.key <= p[d].item.key
    ensures var q, a' := Moved(p, a, c, d), a + (d - c) + 1;
            && Rearranged(p0, q) && Merging(q, a', d, goal) && (d == c ==> q == p)
            && |q| == |p| && q[a' - 1] == p[a] && q[d] == p[d] && q[|q| - 1] == p[|p| - 1]
            && q[1] == (if a > 1 then p[1] else if d > c then p[c] else p[a])
  {
    MergingStep(p, a, c, d, goal);
    RearrangedAgain(p0, p, a, c, d);
    MovedPlaces(p, a, c, d);
    hide Moved, Merging, Rearranged;
    MovedPlacesEnd(p, a, c, d);
  }

  lemma MovedPlacesEnd(p: seq<Node>, a: nat, c: nat, d: nat)
    requires 1 <= a < c <= d < |p|
    ensures var q := Moved(p, a, c, d); |q| == |p| && q[|q| - 1] == p[|p| - 1]
    ensures var q := Moved(p, a, c, d); q[1] == (if a > 1 then p[1] else if d > c then p[c] else p[a])
  {
    MovedParts(p, a, c, d);
  }

  /** The second half of list_sort: p0[1..c0] and p0[c0..|p0|-1] are sorted, and their merge takes their place. */
  method MergeRuns(f10: Node, f20: Node, l2: Node, ghost p0: seq<Node>, ghost c0: nat)
    returns (result: Node, ghost p: seq<Node>)
    requires 1 < c0 < |p0| - 1 && f10 == p0[1] && f20 == p0[c0] && l2 == p0[|p0| - 1]
    requires Simple(p0) && Path(p0)
    modifies NodeSet(p0), {p0[0]}`next, {p0[|p0| - 1]}`prev
    ensures Path(p) && Rearranged(p0, p) && result == p[1]
    ensures Items(Inner(p)) == Merge(Items(p0[1..c0]), Items(p0[c0..|p0| - 1]))
  {
    hide Simple, Path, Merging, Rearranged, Moved, Items, Merge, NodeSet;
    ghost var goal, d := Merge(Items(p0[1..c0]), Items(p0[c0..|p0| - 1])), c0;
    MergeStarts(p0, c0);
    var f1, f2, l1, m := f10, f20, f20, f20;
    result := f1;
    if f2.item.key < f1.item.key {
      m, d := MoveRun(f1, f2, l2, p0, 1, c0);
      result := f2;
      l1, f2 := m, m;
    }
    StepKeeps(p0, p0, 1, c0, d, goal);
    p := Moved(p0, 1, c0, d);
    ghost var a, c := d - c0 + 2, d;
    LinkAt(p, a - 1);
    f1 := f1.next;
    while f1 != l1 && f2 != l2
      invariant 1 < a <= c < |p| == |p0| && f1 == p[a] && f2 == p[c] == l1 && l2 == p[|p| - 1]
      invariant Path(p) && Rearranged(p0, p) && Merging(p, a, c, goal) && result == p[1]
      decreases |p| - a
    {
      MidMerge(p0, p, a, c);
      d := c;
      if f2.item.key < f1.item.key {
        m, d := MoveRun(f1, f2, l2, p, a, c);
        if l1 == f2 {
          l1 := m;
        }
        f2 := m;
      }
      StepKeeps(p0, p, a, c, d, goal);
      p := Moved(p, a, c, d);
      a, c := a + (d - c) + 1, d;
      LinkAt(p, a - 1);
      f1 := f1.next;
    }
    MergeStops(p0, p, a, c, goal);
  }

  lemma MergeStarts(p: seq<Node>, c: nat)
    requires Simple(p) && 1 < c < |p| - 1
    ensures Rearranged(p, p) && Merging(p, 1, c, Merge(Items(p[1..c]), Items(p[c..|p| - 1])))
  {
    assert p[1..1] == [] && Items([]) == [];
  }

  lemma MidMerge(p0: seq<Node>, p: seq<Node>, a: nat, c: nat)
    requires Rearranged(p0, p) && 1 <= a <= c < |p| && p[a] != p[c] && p[c] != p[|p| - 1]
    ensures Simple(p) && a < c < |p| - 1 && NodeSet(p) == NodeSet(p0) && p[0] == p0[0] && p[|p| - 1] == p0[|p0| - 1]
  {
    SameNodes(p0, p);
  }

  lemma MergeStops(p0: seq<Node>, p: seq<Node>, a: nat, c: nat, goal: seq<Item>)
    requires Rearranged(p0, p) && Merging(p, a, c, goal) && (p[a] == p[c] || p[c] == p[|p| - 1])
    ensures Items(Inner(p)) == goal
  {
    SimpleAt(p, a, c);
    SimpleAt(p, c, |p| - 1);
    MergingEnds(p, a, c, goal);
  }

  /** `q` holds the elements of `p` between its ends, sorted, equal keys in their old order. */
  ghost predicate SortsStably(p: seq<Node>, q: seq<Node>)
    requires |p| >= 2 && |q| >= 2
  {
    Sorted(Items(Inner(q))) && Alike(Items(Inner(q)), Items(Inner(p)))
  }

  /** `w` is `p` with each part sorted on its own, the cut being after `k` nodes. */
  ghost predicate HalvesSorted(p: seq<Node>, w: seq<Node>, k: nat) {
    && |w| == |p| && k + 2 < |p|
    && Sorted(Items(w[1..k + 1])) && Alike(Items(w[1..k + 1]), Items(p[1..k + 1]))
    && Sorted(Items(w[k + 1..|p| - 1])) && Alike(Items(w[k + 1..|p| - 1]), Items(p[k + 1..|p| - 1]))
  }

  /** The nodes of the two halves are different ones, and neither holds the ends. */
  lemma HalvesApart(p: seq<Node>, k: nat)
    requires Simple(p) && 1 <= k && k + 2 < |p|
    ensures var s1, s2, e := NodeSet(p[..k + 2]), NodeSet(p[k..]), p[|p| - 1];
            && s1 !! s2 && s1 + s2 == NodeSet(p) && p[0] !in s1 + s2 && e !in s1 + s2
            && p[k] in s1 && p[k + 1] in s2
    ensures Simple(p[..k + 2])
  {
    var z := |p| - 1;
    assert Inner(p[..k + 2]) == p[1..k + 1] && Inner(p[k..]) == p[k + 1..z];
    assert p[1..z] == p[1..k + 1] + p[k + 1..z];
    assert p[1..k + 1][k - 1] == p[k] && p[k + 1..z][0] == p[k + 1];
  }

  /** Sorting one half writes no link of the other one. */
  lemma TailApart(p: seq<Node>, k: nat)
    requires Simple(p) && 1 <= k && k + 2 < |p|
    ensures var t, s1 := p[k + 1..], NodeSet(p[..k + 2]);
            && (forall i :: 0 <= i < |t| - 1 ==> t[i] !in s1 && t[i] != p[0])
            && (forall i :: 1 <= i < |t| ==> t[i] !in s1 && t[i] != p[k + 1])
  {
    HalvesApart(p, k);
    var t := p[k + 1..];
    assert Inner(p[k..]) == t[..|t| - 1];
    assert forall i :: 0 <= i < |t| - 1 ==> t[i] == t[..|t| - 1][i];
  }

  lemma FrontApart(p: seq<Node>, q1: seq<Node>, k: nat)
    requires Simple(p) && 1 <= k && k + 2 < |p| && Rearranged(p[..k + 2], q1)
    ensures var e, s2 := p[|p| - 1], NodeSet(p[k..]);
            && |q1| == k + 2
            && (forall i :: 0 <= i < k ==> q1[i] !in s2 && q1[i] != q1[k])
            && (forall i :: 1 <= i < k + 1 ==> q1[i] !in s2 && q1[i] != e)
  {
    HalvesApart(p, k);
    SameNodes(p[..k + 2], q1);
    assert forall i :: 1 <= i <= k ==> q1[i] == Inner(q1)[i - 1];
  }

  lemma CutPath(p: seq<Node>, k: nat)
    requires Path(p) && k + 2 < |p|
    ensures Path(p[..k + 2]) && Path(p[k + 1..])
  {
  }

  lemma CutFront(q: seq<Node>, k: nat)
    requires Path(q) && k <= |q|
    ensures Path(q[..k])
  {
  }

  lemma RearrangedLength(p: seq<Node>, q: seq<Node>)
    requires Rearranged(p, q)
    ensures |q| == |p|
  {
  }

  /** A sorted first half still leads to the second one. */
  lemma SecondHalf(p: seq<Node>, q1: seq<Node>, k: nat)
    requires Simple(p) && 1 <= k && k + 2 < |p|
    requires Rearranged(p[..k + 2], q1) && Path(q1) && Path(p[k + 1..])
    ensures var p2 := [q1[k]] + p[k + 1..];
            && Path(p2) && Simple(p2) && NodeSet(p2) == NodeSet(p[k..]) && Inner(p2) == p[k + 1..|p| - 1]
            && |q1| == k + 2 && q1[k] in NodeSet(p[..k + 2]) && q1[0] == p[0] && q1[k + 1] == p[k + 1]
  {
    var t := p[k + 1..];
    LinkAt(q1, k);
    PathConcat([q1[k]], t);
    SameNodes(p[..k + 2], q1);
    HalvesApart(p, k);
    assert Inner(q1)[k - 1] == q1[k];
    InnerHalves(p, k, q1[k]);
    hide Rearranged, Path, NodeSet;
    TailSimple(p, k, q1[k]);
  }

  lemma TailSimple(p: seq<Node>, k: nat, n: Node)
    requires Simple(p) && 1 <= k && k + 2 < |p| && n in NodeSet(p[..k + 2])
    ensures Simple([n] + p[k + 1..])
  {
    InnerHalves(p, k, n);
    var i :| 0 <= i < k && n == p[1..k + 1][i];
    assert n == p[i + 1];
    var r := [n] + p[k + 1..];
    assert r[0] == p[i + 1] && forall j :: 1 <= j < |r| ==> r[j] == p[k + j];
  }

  /** The two sorted halves form one stretch again. */
  lemma JoinHalves(p: seq<Node>, q1: seq<Node>, q2: seq<Node>, k: nat)
    requires Simple(p) && 1 <= k && k + 2 < |p|
    requires Rearranged(p[..k + 2], q1) && SortsStably(p[..k + 2], q1) && Path(q1[..k + 1])
    requires Rearranged([q1[k]] + p[k + 1..], q2) && SortsStably([q1[k]] + p[k + 1..], q2) && Path(q2)
    ensures var w := q1[..k + 1] + q2[1..];
            Path(w) && Rearranged(p, w) && HalvesSorted(p, w, k) && w[1] == q1[1] && w[k + 1] == q2[1]
  {
    var z, w := |p| - 1, q1[..k + 1] + q2[1..];
    assert q2[0] == q1[k];
    JoinPath(q1, q2, k);
    hide Path;
    InnerHalves(p, k, q1[k]);
    assert w[1..k + 1] == Inner(q1) && w[k + 1..z] == Inner(q2);
    assert HalvesSorted(p, w, k) by { hide Simple, Rearranged; }
    hide SortsStably;
    JoinRearranged(p, q1, q2, k);
  }

  lemma JoinPath(q1: seq<Node>, q2: seq<Node>, k: nat)
    requires k < |q1| && |q2| >= 2 && q2[0] == q1[k] && Path(q1[..k + 1]) && Path(q2)
    ensures Path(q1[..k + 1] + q2[1..])
  {
    LinkAt(q2, 0);
    assert Path(q2[1..]);
    PathConcat(q1[..k + 1], q2[1..]);
  }

  lemma JoinRearranged(p: seq<Node>, q1: seq<Node>, q2: seq<Node>, k: nat)
    requires Simple(p) && 1 <= k && k + 2 < |p|
    requires Rearranged(p[..k + 2], q1) && Rearranged([q1[k]] + p[k + 1..], q2)
    ensures Rearranged(p, q1[..k + 1] + q2[1..])
  {
    var p2 := [q1[k]] + p[k + 1..];
    HalvesApart(p, k);
    SameNodes(p[..k + 2], q1);
    SameNodes(p2, q2);
    InnerHalves(p, k, q1[k]);
    InnerJoined(q1, q2, k);
    assert NodeSet(p2) == NodeSet(p[k..]);
    hide Simple, NodeSet, Inner;
    JoinSimple(p, q1, q2, k, NodeSet(p[..k + 2]), NodeSet(p[k..]));
  }

  lemma InnerHalves(p: seq<Node>, k: nat, n: Node)
    requires 1 <= k && k + 2 < |p|
    ensures var z := |p| - 1;
            && Inner(p[..k + 2]) == p[1..k + 1] && Inner([n] + p[k + 1..]) == p[k + 1..z] == Inner(p[k..])
            && Inner(p) == p[1..k + 1] + p[k + 1..z]
  {
  }

  lemma InnerJoined(q1: seq<Node>, q2: seq<Node>, k: nat)
    requires |q1| == k + 2 && |q2| >= 2
    ensures Inner(q1[..k + 1] + q2[1..]) == Inner(q1) + Inner(q2)
  {
  }

  lemma JoinSimple(p: seq<Node>, q1: seq<Node>, q2: seq<Node>, k: nat, s1: set<Node>, s2: set<Node>)
    requires k + 2 < |p| && |q1| == k + 2 && |q2| == |p| - k
    requires Simple(q1) && Simple(q2) && NodeSet(q1) == s1 && NodeSet(q2) == s2 && s1 !! s2
    requires q1[0] !in s1 + s2 && q2[|q2| - 1] !in s1 + s2
    ensures Simple(q1[..k + 1] + q2[1..])
  {
    var w := q1[..k + 1] + q2[1..];
    forall i, j | 0 <= i < j < |w| && !(i == 0 && j == |w| - 1)
      ensures w[i] != w[j]
    {
      if j <= k {
        assert q1[i] != q1[j];
      } else if i > k {
        assert q2[i - k] != q2[j - k];
      } else {
        if i > 0 {
          assert q1[i] == Inner(q1)[i - 1] && q1[i] in s1;
        }
        if j < |w| - 1 {
          assert q2[j - k] == Inner(q2)[j - k - 1] && q2[j - k] in s2;
        }
      }
    }
  }

  lemma HalvesInPlace(p: seq<Node>, w: seq<Node>, k: nat)
    requires Rearranged(p, w)
    ensures Simple(w) && |w| == |p| && w[0] == p[0] && w[|w| - 1] == p[|p| - 1] && NodeSet(w) == NodeSet(p)
  {
    SameNodes(p, w);
  }

  lemma WholeSorted(p: seq<Node>, w: seq<Node>, q: seq<Node>, k: nat)
    requires Rearranged(p, w) && HalvesSorted(p, w, k) && Rearranged(w, q)
    requires Items(Inner(q)) == Merge(Items(w[1..k + 1]), Items(w[k + 1..|w| - 1]))
    ensures Rearranged(p, q) && SortsStably(p, q)
  {
    hide Simple, Items, Merge, Sorted, WithKey;
    var z := |p| - 1;
    var x, y, x0, y0 := Items(w[1..k + 1]), Items(w[k + 1..z]), Items(p[1..k + 1]), Items(p[k + 1..z]);
    assert Inner(p) == p[1..k + 1] + p[k + 1..z];
    ItemsConcat(p[1..k + 1], p[k + 1..z]);
    MergeSorted(x, y);
    forall k: int
      ensures WithKey(Items(Inner(q)), k) == WithKey(Items(Inner(p)), k)
    {
      MergeStable(x, y, k);
      WithKeyConcat(x0, y0, k);
    }
  }

  /** Sorts the nodes strictly between the ends of `p` by relinking; f1 and l2 delimit them. Writes nothing but the
      links of these nodes and the two that lead to them from outside. */
  method Sort(f1: Node, l2: Node, n: nat, ghost p: seq<Node>) returns (result: Node, ghost q: seq<Node>)
    requires |p| == n + 2 && f1 == p[1] && l2 == p[n + 1]
    requires Simple(p) && Path(p)
    modifies NodeSet(p), {p[0]}`next, {p[|p| - 1]}`prev
    ensures Path(q) && Rearranged(p, q) && SortsStably(p, q)
    ensures result == q[1]
    decreases n, 1
  {
    hide Simple, Path, Rearranged, SortsStably, NodeSet;
    if n < 2 {
      AlreadySorted(p);
      return f1, p;
    }
    if n == 2 {
      result, q := SortTwo(f1, l2, p);
      return;
    }
    var n2 := n / 2;
    var l1 := Advance(f1, n2, p, 1);
    var first, second;
    ghost var w;
    first, second, w := SortHalves(f1, l1, l2, n, n2, p);
    HalvesInPlace(p, w, n2);
    result, q := MergeRuns(first, second, l2, w, n2 + 1);
    WholeSorted(p, w, q, n2);
  }

  /** Both halves sorted by the recursive calls; `w` is the whole stretch after that. */
  method SortHalves(f1: Node, l1: Node, l2: Node, n: nat, n2: nat, ghost p: seq<Node>)
    returns (first: Node, second: Node, ghost w: seq<Node>)
    requires |p| == n + 2 && 1 <= n2 < n && f1 == p[1] && l1 == p[n2 + 1] && l2 == p[n + 1]
    requires Simple(p) && Path(p)
    modifies NodeSet(p), {p[0]}`next, {p[|p| - 1]}`prev
    ensures Path(w) && Rearranged(p, w) && HalvesSorted(p, w, n2)
    ensures first == w[1] && second == w[n2 + 1]
    decreases n, 0
  {
    hide Simple, Path, Rearranged, HalvesSorted, SortsStably, NodeSet;
    ghost var p1, t := p[..n2 + 2], p[n2 + 1..];
    HalvesApart(p, n2);
    CutPath(p, n2);
    ghost var q1, q2;
    first, q1 := Sort(f1, l1, n2, p1);
    assert Path(t) by {
      TailApart(p, n2);
    }
    SecondHalf(p, q1, n2);
    ghost var p2 := [q1[n2]] + t;
    CutFront(q1, n2 + 1);
    second, q2 := Sort(l1, l2, n - n2, p2);
    assert Path(q1[..n2 + 1]) by {
      FrontApart(p, q1, n2);
    }
    RearrangedLength(p2, q2);
    w := q1[..n2 + 1] + q2[1..];
    JoinHalves(p, q1, q2, n2);
  }

  /** sort: the whole ring, whose ends are both the node that is nobody's element. */
  method SortRing(end: Node, size: nat, ghost p: seq<Node>) returns (ghost q: seq<Node>)
    requires |p| == size + 2 && p[0] == end && p[size + 1] == end
    requires Simple(p) && Path(p)
    modifies NodeSet(p), end
    ensures Path(q) && Rearranged(p, q) && SortsStably(p, q)
  {
    hide Simple, Path, Rearranged, SortsStably, NodeSet;
    LinkAt(p, 0);
    var begin: Node := end.next;
    var first;
    first, q := Sort(begin, end, size, p);
  }

  method Advance(from: Node, n: nat, ghost p: seq<Node>, ghost i: nat) returns (node: Node)
    requires i + n < |p| && from == p[i] && Path(p)
    ensures node == p[i + n]
  {
    hide Path;
    node := from;
    for k := 0 to n
      invariant node == p[i + k]
    {
      LinkAt(p, i + k);
      node := node.next;
    }
  }

  lemma AlreadySorted(p: seq<Node>)
    requires 2 <= |p| < 4 && Simple(p)
    ensures Rearranged(p, p) && SortsStably(p, p)
  {
  }

  method SortTwo(f1: Node, l20: Node, ghost p: seq<Node>) returns (result: Node, ghost q: seq<Node>)
    requires |p| == 4 && f1 == p[1] && l20 == p[3]
    requires Simple(p) && Path(p)
    modifies NodeSet(p), {p[0]}`next, {p[|p| - 1]}`prev
    ensures Path(q) && Rearranged(p, q) && SortsStably(p, q)
    ensures result == q[1]
  {
    hide Simple, Path, Rearranged, SortsStably;
    TwoSorted(p);
    LinkAt(p, 2);
    var l2: Node := l20.prev;
    if l2.item.key < f1.item.key {
      var ln := l2;
      WithinStretch(p, 1, 2, 3);
      MoveBefore(f1, ln, ln, p, 1, 2, 3);
      return l2, Moved(p, 1, 2, 3);
    }
    return f1, p;
  }

  lemma TwoSorted(p: seq<Node>)
    requires |p| == 4 && Simple(p)
    ensures p[2].item.key >= p[1].item.key ==> Rearranged(p, p) && SortsStably(p, p)
    ensures var q := Moved(p, 1, 2, 3); q[1] == p[2] && (p[2].item.key < p[1].item.key ==>
              Rearranged(p, q) && SortsStably(p, q))
  {
    var q := Moved(p, 1, 2, 3);
    MovedRearranged(p, 1, 2, 3);
    assert q == [p[0], p[2], p[1], p[3]] && Inner(q) == [p[2], p[1]] && Inner(p) == [p[1], p[2]];
    hide Simple, Rearranged, Moved;
    PairSorted(p[1], p[2]);
  }

  lemma PairSorted(x: Node, y: Node)
    ensures y.item.key >= x.item.key ==> Sorted(Items([x, y])) && Alike(Items([x, y]), Items([x, y]))
    ensures y.item.key < x.item.key ==> Sorted(Items([y, x])) && Alike(Items([y, x]), Items([x, y]))
  {
    assert Items([x, y]) == [x.item] + [y.item] && Items([y, x]) == [y.item] + [x.item];
    if y.item.key < x.item.key {
      forall k
        ensures WithKey([y.item] + [x.item], k) == WithKey([x.item] + [y.item], k)
      {
        WithKeyConcat([x.item], [y.item], k);
        WithKeyConcat([y.item], [x.item], k);
      }
    }
  }
}
