// next_permutation and prev_permutation of dbase/stl/algo.h. They are one algorithm for the two directions of the
// order.

module LexOrder {
  /** `x` comes before `y`: ascending when `up`, descending otherwise. */
  predicate Before(up: bool, x: int, y: int) {
    if up then x < y else y < x
  }

  /** `s` comes before `t` in dictionary order. */
  predicate LexBefore(up: bool, s: seq<int>, t: seq<int>) {
    |s| == |t| && exists k :: 0 <= k < |s| && LexAt(up, s, t, k)
  }

  predicate LexAt(up: bool, s: seq<int>, t: seq<int>, k: nat)
    requires k < |s| == |t|
  {
    s[..k] == t[..k] && Before(up, s[k], t[k])
  }

  predicate InOrder(up: bool, s: seq<int>) {
    forall i, j :: 0 <= i < j < |s| ==> !Before(up, s[j], s[i])
  }

  /** `t` is the least rearrangement of `s` that comes after `s`. */
  ghost predicate IsNext(up: bool, s: seq<int>, t: seq<int>) {
    && multiset(t) == multiset(s) && LexBefore(up, s, t)
    && forall u :: multiset(u) == multiset(s) && LexBefore(up, s, u) ==> u == t || LexBefore(up, t, u)
  }

  /** No rearrangement of `s` comes after `s`. */
  ghost predicate IsLast(up: bool, s: seq<int>) {
    forall u :: multiset(u) == multiset(s) ==> !LexBefore(up, s, u)
  }

  lemma OtherDirection(s: seq<int>, t: seq<int>)
    ensures LexBefore(false, s, t) == LexBefore(true, t, s)
  {
    if LexBefore(false, s, t) {
      var k :| 0 <= k < |s| && LexAt(false, s, t, k);
      assert LexAt(true, t, s, k);
    }
    if LexBefore(true, t, s) {
      var k :| 0 <= k < |s| && LexAt(true, t, s, k);
      assert LexAt(false, s, t, k);
    }
  }

  lemma LexTotal(up: bool, s: seq<int>, t: seq<int>)
    requires |s| == |t|
    ensures s == t || LexBefore(up, s, t) || LexBefore(up, t, s)
  {
    if s != t {
      var k := FirstDifference(s, t);
      assert LexAt(up, s, t, k) || LexAt(up, t, s, k);
    }
  }

  lemma {:induction false} FirstDifference(s: seq<int>, t: seq<int>) returns (k: nat)
    requires |s| == |t| && s != t
    ensures k < |s| && s[..k] == t[..k] && s[k] != t[k]
  {
    if s[0] != t[0] {
      k := 0;
    } else {
      assert s == [s[0]] + s[1..] && t == [t[0]] + t[1..];
      k := FirstDifference(s[1..], t[1..]);
      assert s[..k + 1] == [s[0]] + s[1..][..k] && t[..k + 1] == [t[0]] + t[1..][..k];
      k := k + 1;
    }
  }

  lemma PrefixAt(s: seq<int>, t: seq<int>, m: nat, k: nat)
    requires k < m <= |s| && m <= |t|
    ensures s[..m] == t[..m] ==> s[k] == t[k]
  {
    if s[..m] == t[..m] {
      assert s[..m][k] == s[k] && t[..m][k] == t[k];
    }
  }

  lemma LexAsymmetric(up: bool, s: seq<int>, t: seq<int>)
    requires LexBefore(up, s, t)
    ensures !LexBefore(up, t, s)
  {
    var k :| 0 <= k < |s| && LexAt(up, s, t, k);
    forall m | 0 <= m < |s|
      ensures !LexAt(up, t, s, m)
    {
      if k < m {
        PrefixAt(s, t, m, k);
      } else if m < k {
        PrefixAt(s, t, k, m);
      }
    }
  }

  /** Stepping forward and then back returns to the start. */
  lemma BackAgain(up: bool, s: seq<int>, t: seq<int>, u: seq<int>)
    requires IsNext(up, s, t) && IsNext(!up, t, u)
    ensures u == s
  {
    Turned(up, s, t);
    Turned(up, u, t);
    Turned(up, s, u);
    assert s == u || LexBefore(!up, u, s);
    if LexBefore(up, s, u) {
      LexAsymmetric(up, u, t);
      SelfBefore(up, t);
    }
  }

  /** After a step forward a step back is possible. */
  lemma BackPossible(up: bool, s: seq<int>, t: seq<int>)
    requires IsNext(up, s, t)
    ensures !IsLast(!up, t)
  {
    Turned(up, s, t);
  }

  lemma Turned(up: bool, s: seq<int>, t: seq<int>)
    ensures LexBefore(up, s, t) == LexBefore(!up, t, s)
    ensures LexBefore(up, t, s) == LexBefore(!up, s, t)
  {
    OtherDirection(s, t);
    OtherDirection(t, s);
  }

  lemma SelfBefore(up: bool, s: seq<int>)
    ensures !LexBefore(up, s, s)
  {
  }

  lemma SameRest(s: seq<int>, u: seq<int>, k: nat)
    requires multiset(s) == multiset(u) && k <= |s| == |u| && s[..k] == u[..k]
    ensures multiset(s[k..]) == multiset(u[k..])
  {
    assert s == s[..k] + s[k..] && u == u[..k] + u[k..];
    assert multiset(s[k..]) == multiset(s) - multiset(s[..k]);
  }

  lemma SameLength(s: seq<int>, u: seq<int>)
    requires multiset(s) == multiset(u)
    ensures |s| == |u|
  {
    assert |s| == |multiset(s)| && |u| == |multiset(u)|;
  }

  lemma RestBounded(up: bool, d: seq<int>, k: nat, e: int)
    requires InOrder(!up, d) && k < |d| && e in d[k..]
    ensures !Before(up, d[k], e)
  {
    var m :| 0 <= m < |d[k..]| && d[k..][m] == e;
    assert d[k + m] == e;
  }

  /** A sequence in the opposite order is the last arrangement of its elements. */
  lemma OppositeIsLast(up: bool, d: seq<int>, u: seq<int>)
    requires InOrder(!up, d) && multiset(u) == multiset(d)
    ensures !LexBefore(up, d, u)
  {
    SameLength(d, u);
    forall k | 0 <= k < |d|
      ensures !LexAt(up, d, u, k)
    {
      if d[..k] == u[..k] {
        SameRest(d, u, k);
        assert u[k] == u[k..][0] && u[k] in multiset(d[k..]);
        RestBounded(up, d, k, u[k]);
      }
    }
  }

  /** A sequence in order is the first arrangement of its elements. */
  lemma OrderedIsFirst(up: bool, a: seq<int>, u: seq<int>)
    requires InOrder(up, a) && multiset(u) == multiset(a)
    ensures u == a || LexBefore(up, a, u)
  {
    SameLength(u, a);
    LexTotal(up, a, u);
    Turned(up, a, u);
    OppositeIsLast(!up, a, u);
  }
}

module Permutations {
  import opened LexOrder
  import opened Rotate

  function Reversed(s: seq<int>): seq<int> {
    if s == [] then [] else Reversed(s[1..]) + [s[0]]
  }

  lemma {:induction false} ReversedAt(s: seq<int>)
    ensures |Reversed(s)| == |s| && multiset(Reversed(s)) == multiset(s)
    ensures forall k :: 0 <= k < |s| ==> Reversed(s)[k] == s[|s| - 1 - k]
  {
    if s != [] {
      ReversedAt(s[1..]);
      assert s == [s[0]] + s[1..];
    }
  }

  lemma ReversedInOrder(up: bool, s: seq<int>)
    requires InOrder(!up, s)
    ensures InOrder(up, Reversed(s))
  {
    ReversedAt(s);
    hide Reversed;
  }

  /** s = p + [x] + d, d descending, d[j] the last of d that comes after x. */
  predicate Pivot(up: bool, x: int, d: seq<int>, j: nat) {
    && InOrder(!up, d) && j < |d| && Before(up, x, d[j])
    && forall k :: j < k < |d| ==> !Before(up, x, d[k])
  }

  lemma SwappedOut(x: int, d: seq<int>, j: nat)
    requires j < |d|
    ensures multiset([d[j]] + d[j := x]) == multiset([x] + d)
  {
    assert d == d[..j] + [d[j]] + d[j + 1..];
    assert d[j := x] == d[..j] + [x] + d[j + 1..];
  }

  lemma PivotSwapped(up: bool, x: int, d: seq<int>, j: nat)
    requires Pivot(up, x, d, j)
    ensures InOrder(!up, d[j := x])
  {
  }

  /** Exchanging x with d[j] keeps the tail descending, so that reversed it is ascending. */
  lemma TailInOrder(up: bool, x: int, d: seq<int>, j: nat)
    requires Pivot(up, x, d, j)
    ensures var tail := Reversed(d[j := x]);
            |tail| == |d| && InOrder(up, tail) && multiset([d[j]] + tail) == multiset([x] + d)
  {
    PivotSwapped(up, x, d, j);
    ReversedInOrder(up, d[j := x]);
    ReversedAt(d[j := x]);
    SwappedOut(x, d, j);
    hide Reversed, InOrder;
  }

  /** Of the elements after x, d[j] is the least. */
  lemma LeastAbove(up: bool, x: int, d: seq<int>, j: nat, e: int)
    requires Pivot(up, x, d, j) && e in [x] + d && Before(up, x, e)
    ensures e == d[j] || Before(up, d[j], e)
  {
    var m :| 0 <= m < |d| && d[m] == e;
  }

  /** The swap and the reversal give the least arrangement that comes after the old one. */
  lemma StepIsNext(up: bool, p: seq<int>, x: int, d: seq<int>, j: nat)
    requires Pivot(up, x, d, j)
    ensures IsNext(up, p + [x] + d, p + [d[j]] + Reversed(d[j := x]))
  {
    var s, tail := p + [x] + d, Reversed(d[j := x]);
    var t := p + [d[j]] + tail;
    TailInOrder(up, x, d, j);
    hide Reversed, Pivot, InOrder, LexBefore;
    assert s == p + ([x] + d) && t == p + ([d[j]] + tail);
    StepForward(up, p, x, d, j, tail);
    forall u | multiset(u) == multiset(s) && LexBefore(up, s, u)
      ensures u == t || LexBefore(up, t, u)
    {
      var k := WhereBefore(up, s, u);
      NothingBetween(up, p, x, d, j, u, tail, k);
    }
  }

  lemma StepForward(up: bool, p: seq<int>, x: int, d: seq<int>, j: nat, tail: seq<int>)
    requires Pivot(up, x, d, j) && |tail| == |d|
    ensures LexBefore(up, p + [x] + d, p + [d[j]] + tail)
  {
    var s, t := p + [x] + d, p + [d[j]] + tail;
    assert s[..|p|] == p && t[..|p|] == p;
    assert LexAt(up, s, t, |p|);
  }

  lemma WhereBefore(up: bool, s: seq<int>, u: seq<int>) returns (k: nat)
    requires LexBefore(up, s, u)
    ensures |s| == |u| && k < |s| && LexAt(up, s, u, k)
  {
    k :| 0 <= k < |s| && LexAt(up, s, u, k);
  }

  lemma NothingBetween(up: bool, p: seq<int>, x: int, d: seq<int>, j: nat, u: seq<int>, tail: seq<int>, k: nat)
    requires Pivot(up, x, d, j) && |tail| == |d|
    requires InOrder(up, tail) && multiset([d[j]] + tail) == multiset([x] + d)
    requires multiset(u) == multiset(p + [x] + d) && k < |p| + 1 + |d| == |u| && LexAt(up, p + [x] + d, u, k)
    ensures u == p + [d[j]] + tail || LexBefore(up, p + [d[j]] + tail, u)
  {
    var s, t := p + [x] + d, p + [d[j]] + tail;
    SameRest(s, u, k);
    if k < |p| {
      assert t[..k] == s[..k];
      assert LexAt(up, t, u, k);
    } else if k == |p| {
      assert s[..k] == p && s[k..] == [x] + d && t[..k] == p;
      assert u[k] == u[k..][0] && u[k] in multiset([x] + d);
      assert u[k] in [x] + d;
      LeastAbove(up, x, d, j, u[k]);
      if u[k] == d[j] {
        SameHead(up, p, d[j], tail, u);
      } else {
        assert LexAt(up, t, u, k);
      }
    } else {
      assert s[k..] == d[k - |p| - 1..] && s[k] == d[k - |p| - 1];
      assert u[k] == u[k..][0] && u[k] in multiset(d[k - |p| - 1..]);
      RestBounded(up, d, k - |p| - 1, u[k]);
    }
  }

  /** The same front and the same next element: the ordered tail is the first one possible. */
  lemma SameHead(up: bool, p: seq<int>, e: int, tail: seq<int>, u: seq<int>)
    requires |u| == |p| + 1 + |tail| && u[..|p|] == p && u[|p|] == e
    requires multiset(u[|p|..]) == multiset([e] + tail) && InOrder(up, tail)
    ensures u == p + [e] + tail || LexBefore(up, p + [e] + tail, u)
  {
    var v := u[|p| + 1..];
    assert u[|p|..] == [e] + v && u == (p + [e]) + v;
    SameTail(e, v, tail);
    OrderedIsFirst(up, tail, v);
    if v != tail {
      LexBehind(up, p + [e], tail, v);
    }
  }

  lemma SameTail(e: int, v: seq<int>, tail: seq<int>)
    requires multiset([e] + v) == multiset([e] + tail)
    ensures multiset(v) == multiset(tail)
  {
    assert multiset(v) == multiset([e] + v) - multiset{e} && multiset(tail) == multiset([e] + tail) - multiset{e};
  }

  lemma LexBehind(up: bool, q: seq<int>, s: seq<int>, t: seq<int>)
    requires LexBefore(up, s, t)
    ensures LexBefore(up, q + s, q + t)
  {
    var k :| 0 <= k < |s| && LexAt(up, s, t, k);
    assert (q + s)[..|q| + k] == q + s[..k] && (q + t)[..|q| + k] == q + t[..k];
    assert LexAt(up, q + s, q + t, |q| + k);
  }

  /** Reversing in place reverses that part of the array. */
  lemma MirroredPart(s: seq<int>, t: seq<int>, first: nat, last: nat)
    requires first <= last <= |s| && Mirrored(s, t, first, last)
    ensures |t| == |s| && t[first..last] == Reversed(s[first..last]) && t[..first] == s[..first]
              && t[last..] == s[last..]
  {
    MirroredInside(s, t, first, last);
    MirroredOutside(s, t, first, last);
    hide Mirrored, Reversed;
    SameReversed(s[first..last], t[first..last]);
  }

  lemma MirroredInside(s: seq<int>, t: seq<int>, first: nat, last: nat)
    requires first <= last <= |s| && Mirrored(s, t, first, last)
    ensures |t| == |s|
    ensures var q, r := t[first..last], s[first..last]; forall k :: 0 <= k < |q| ==> q[k] == r[|r| - 1 - k]
  {
    var q, r := t[first..last], s[first..last];
    forall k | 0 <= k < |q|
      ensures q[k] == r[|r| - 1 - k]
    {
      assert t[first + k] == s[Mirror(first, last, first + k)];
    }
  }

  lemma MirroredOutside(s: seq<int>, t: seq<int>, first: nat, last: nat)
    requires first <= last <= |s| && Mirrored(s, t, first, last)
    ensures |t| == |s| && t[..first] == s[..first] && t[last..] == s[last..]
  {
  }

  lemma SameReversed(s: seq<int>, t: seq<int>)
    requires |s| == |t| && forall k :: 0 <= k < |s| ==> t[k] == s[|s| - 1 - k]
    ensures t == Reversed(s)
  {
    ReversedAt(s);
    hide Reversed;
  }

  lemma NoneLeft(up: bool, s: seq<int>, t: seq<int>)
    requires InOrder(!up, s) && t == Reversed(s)
    ensures IsLast(up, s) && InOrder(up, t) && multiset(t) == multiset(s)
  {
    ReversedInOrder(up, s);
    ReversedAt(s);
    forall u | multiset(u) == multiset(s)
      ensures !LexBefore(up, s, u)
    {
      OppositeIsLast(up, s, u);
    }
  }

  /** What the swap and the reversal do to the range, seen from the position i where the order first rises. */
  lemma StepOnArray(up: bool, s: seq<int>, s1: seq<int>, t: seq<int>, first: nat, last: nat, i: nat, j: nat)
    requires first <= i < j < last <= |s| && s1 == s[i := s[j]][j := s[i]]
    requires Mirrored(s1, t, i + 1, last)
    requires Pivot(up, s[i], s[i + 1..last], j - i - 1)
    ensures |t| == |s| && t[..first] == s[..first] && t[last..] == s[last..]
    ensures IsNext(up, s[first..last], t[first..last])
  {
    hide Mirrored, IsNext, Pivot, Reversed;
    var p, x, d, j' := s[first..i], s[i], s[i + 1..last], j - i - 1;
    MirroredPart(s1, t, i + 1, last);
    SwapSlices(s, s1, first, last, i, j);
    FrontSlices(t, s1, first, i + 1);
    assert t[first..last] == t[first..i + 1] + t[i + 1..last];
    StepIsNext(up, p, x, d, j');
  }

  lemma SwapSlices(s: seq<int>, s1: seq<int>, first: nat, last: nat, i: nat, j: nat)
    requires first <= i < j < last <= |s| && s1 == s[i := s[j]][j := s[i]]
    ensures s1[i + 1..last] == s[i + 1..last][j - i - 1 := s[i]]
    ensures s1[..first] == s[..first] && s1[last..] == s[last..]
    ensures s1[first..i + 1] == s[first..i] + [s[i + 1..last][j - i - 1]]
    ensures s[first..last] == s[first..i] + [s[i]] + s[i + 1..last]
  {
  }

  lemma FrontSlices(t: seq<int>, s: seq<int>, first: nat, m: nat)
    requires first <= m <= |t| && m <= |s| && t[..m] == s[..m]
    ensures t[..first] == s[..first] && t[first..m] == s[first..m]
  {
    assert t[..first] == t[..m][..first] && s[..first] == s[..m][..first];
    assert t[first..m] == t[..m][first..] && s[first..m] == s[..m][first..];
  }

  /** next_permutation for up, prev_permutation for !up. */
  method Permute(a: array<int>, first: nat, last: nat, up: bool) returns (more: bool)
    requires first <= last <= a.Length
    modifies a
    ensures more ==> IsNext(up, old(a[first..last]), a[first..last])
    ensures !more ==> IsLast(up, old(a[first..last])) && InOrder(up, a[first..last])
    ensures multiset(a[first..last]) == multiset(old(a[first..last]))
    ensures OnlyWithin(a, first, last)
  {
    hide IsNext, IsLast, Mirrored, Reversed, LexBefore, InOrder;
    ghost var s := a[..];
    assert s[first..last] == a[first..last];
    var i := last;
    if first == last || first == last - 1 {
      NoneLeft(up, a[first..last], a[first..last]) by { ShortReversed(a[first..last]); }
      return false;
    }
    i := i - 1;
    while true
      invariant first < i < last && a[..] == s
      invariant forall x, y :: i <= x < y < last ==> !Before(up, a[x], a[y])
      decreases i
    {
      var ii := i;
      i := i - 1;
      if Before(up, a[i], a[ii]) {
        var j := FindPartner(a, i, last, up);
        a[i], a[j] := a[j], a[i];
        ghost var s1 := a[..];
        Reverse(a, ii, last);
        PivotFound(up, s, i, j, last);
        StepOnArray(up, s, s1, a[..], first, last, i, j);
        SnapshotParts(a, s, first, last);
        NextKeeps(up, s[first..last], a[first..last]);
        return true;
      }
      StillFalling(up, s, i, last);
      if i == first {
        FallingSlice(up, s, first, last);
        Reverse(a, first, last);
        MirroredPart(s, a[..], first, last);
        SnapshotParts(a, s, first, last);
        NoneLeft(up, s[first..last], a[first..last]);
        return false;
      }
    }
  }

  lemma StillFalling(up: bool, s: seq<int>, i: nat, last: nat)
    requires i + 1 < last <= |s| && !Before(up, s[i], s[i + 1])
    requires forall x, y :: i + 1 <= x < y < last ==> !Before(up, s[x], s[y])
    ensures forall x, y :: i <= x < y < last ==> !Before(up, s[x], s[y])
  {
  }

  lemma FallingSlice(up: bool, s: seq<int>, first: nat, last: nat)
    requires first <= last <= |s| && forall x, y :: first <= x < y < last ==> !Before(up, s[x], s[y])
    ensures InOrder(!up, s[first..last])
  {
    var t := s[first..last];
    assert forall k :: 0 <= k < |t| ==> t[k] == s[first + k];
  }

  lemma ShortReversed(s: seq<int>)
    requires |s| <= 1
    ensures Reversed(s) == s
  {
  }

  lemma NextKeeps(up: bool, s: seq<int>, t: seq<int>)
    requires IsNext(up, s, t)
    ensures multiset(t) == multiset(s)
  {
  }

  lemma SnapshotParts(a: array<int>, s: seq<int>, first: nat, last: nat)
    requires first <= last <= a.Length == |s|
    ensures a[..][first..last] == a[first..last] && a[..][..first] == a[..first] && a[..][last..] == a[last..]
  {
  }

  lemma PivotFound(up: bool, s: seq<int>, i: nat, j: nat, last: nat)
    requires i < j < last <= |s| && Before(up, s[i], s[j])
    requires forall x, y :: i < x < y < last ==> !Before(up, s[x], s[y])
    requires forall k :: j < k < last ==> !Before(up, s[i], s[k])
    ensures Pivot(up, s[i], s[i + 1..last], j - i - 1)
  {
    var d := s[i + 1..last];
    assert forall k :: 0 <= k < |d| ==> d[k] == s[i + 1 + k];
  }

  /** The last element that comes after a[i]. */
  method FindPartner(a: array<int>, i: nat, last: nat, up: bool) returns (j: nat)
    requires i + 1 < last <= a.Length && Before(up, a[i], a[i + 1])
    ensures i < j < last && Before(up, a[i], a[j])
    ensures forall k :: j < k < last ==> !Before(up, a[i], a[k])
  {
    j := last - 1;
    while !Before(up, a[i], a[j])
      invariant i < j < last
      invariant forall k :: j < k < last ==> !Before(up, a[i], a[k])
      decreases j
    {
      j := j - 1;
    }
  }
}
