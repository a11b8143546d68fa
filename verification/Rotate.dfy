// The three in-place rotate algorithms of dbase/stl/algo.h.

module Rotate {
  /** `s` with its first `l` elements moved behind the others. */
  function Rotated<T>(s: seq<T>, l: nat): seq<T>
    requires l <= |s|
  {
    s[l..] + s[..l]
  }

  /** Nothing outside [first, last) changes. */
  twostate predicate OnlyWithin<T>(a: array<T>, first: nat, last: nat)
    requires first <= last <= a.Length
    reads a
  {
    a[..first] == old(a[..first]) && a[last..] == old(a[last..])
  }

  /** Part way through: [first0, first) holds the front of `goal`, and the rest of it is what lies behind
      first2, then [middle, first2), then [first, middle). */
  ghost predicate Exchanged<T>(s: seq<T>, goal: seq<T>, first0: nat, first: nat, middle: nat, first2: nat, last: nat)
  {
    && first0 <= first <= middle <= first2 <= last <= |s| && |goal| == last - first0
    && s[first0..first] == goal[..first - first0]
    && goal[first - first0..] == s[first2..last] + s[middle..first2] + s[first..middle]
  }

  lemma ExchangeStep<T>(s: seq<T>, goal: seq<T>, first0: nat, first: nat, middle: nat, first2: nat, last: nat,
          s': seq<T>)
    requires Exchanged(s, goal, first0, first, middle, first2, last) && first < middle && first2 < last
    requires s' == s[first := s[first2]][first2 := s[first]]
    ensures Exchanged(s', goal, first0, first + 1, middle, first2 + 1, last)
  {
    var k := first - first0;
    assert goal[k..][0] == s[first2];
    assert goal[k + 1..] == goal[k..][1..];
    assert s'[first2 + 1..last] == s[first2..last][1..];
    assert s'[middle..first2 + 1] == s[middle..first2] + [s[first]];
    assert s'[first + 1..middle] == s[first..middle][1..];
    assert s'[first0..first + 1] == s[first0..first] + [s[first2]];
    hide Exchanged;
    RestAfterExchange(goal[k..], s[first2..last], s[middle..first2], s[first..middle]);
  }

  lemma RestAfterExchange<T>(rest: seq<T>, z: seq<T>, y: seq<T>, x: seq<T>)
    requires rest == z + y + x && z != [] && x != []
    ensures rest[1..] == z[1..] + (y + [x[0]]) + x[1..]
  {
  }

  lemma ExchangeBegins<T>(s: seq<T>, first: nat, middle: nat, last: nat)
    requires first <= middle <= last <= |s|
    ensures Exchanged(s, Rotated(s[first..last], middle - first), first, first, middle, middle, last)
  {
    assert s[first..last][..middle - first] == s[first..middle];
    assert s[first..last][middle - first..] == s[middle..last];
  }

  /** When [first, middle) is used up the part behind it takes its role; when the back part is used up, so it does. */
  lemma ExchangeTurns<T>(s: seq<T>, goal: seq<T>, first0: nat, first: nat, middle: nat, first2: nat, last: nat)
    requires Exchanged(s, goal, first0, first, middle, first2, last)
    ensures first == middle ==> Exchanged(s, goal, first0, first, first2, first2, last)
    ensures first2 == last ==> Exchanged(s, goal, first0, first, middle, middle, last)
  {
  }

  lemma ExchangeEnds<T>(s: seq<T>, goal: seq<T>, first0: nat, first: nat, last: nat)
    requires Exchanged(s, goal, first0, first, last, last, last)
    ensures s[first0..last] == goal
  {
    assert goal == goal[..first - first0] + goal[first - first0..];
    assert s[first0..last] == s[first0..first] + s[first..last];
  }

  /** rotate_dispatch for forward iterators: exchanges elements front to back. */
  method RotateForward<T>(a: array<T>, first0: nat, middle0: nat, last: nat) returns (newMiddle: nat)
    requires first0 < middle0 < last <= a.Length
    modifies a
    ensures a[first0..last] == Rotated(old(a[first0..last]), middle0 - first0)
    ensures newMiddle == first0 + (last - middle0)
    ensures OnlyWithin(a, first0, last)
  {
    hide Exchanged, Rotated;
    ghost var goal := Rotated(a[first0..last], middle0 - first0);
    SameSlice(a, first0, last);
    ExchangeBegins(a[..], first0, middle0, last);
    var middle;
    newMiddle, middle := BringFront(a, goal, first0, middle0, last);
    RotateRest(a, goal, first0, newMiddle, middle, last);
    SameSlice(a, first0, last);
  }

  lemma SameSlice<T>(a: array<T>, first: nat, last: nat)
    requires first <= last <= a.Length
    ensures a[..][first..last] == a[first..last]
  {
  }

  /** The first loop: brings the back part to the front. */
  method BringFront<T>(a: array<T>, ghost goal: seq<T>, first0: nat, middle0: nat, last: nat)
    returns (first: nat, middle: nat)
    requires first0 < middle0 < last <= a.Length
    requires Exchanged(a[..], goal, first0, first0, middle0, middle0, last)
    modifies a
    ensures first == first0 + (last - middle0) && first < middle <= last
    ensures Exchanged(a[..], goal, first0, first, middle, middle, last)
    ensures OnlyWithin(a, first0, last)
  {
    hide Exchanged;
    var first2;
    first, middle, first2 := first0, middle0, middle0;
    while true
      invariant first0 <= first < middle <= first2 < last && first2 - first == middle0 - first0
      invariant Exchanged(a[..], goal, first0, first, middle, first2, last)
      invariant OnlyWithin(a, first0, last)
      decreases last - first2
    {
      Exchange(a, goal, first0, first, middle, first2, last);
      first, first2 := first + 1, first2 + 1;
      ExchangeTurns(a[..], goal, first0, first, middle, first2, last);
      if first == middle {
        middle := first2;
      }
      if first2 == last {
        break;
      }
    }
    ExchangeTurns(a[..], goal, first0, first, middle, first2, last);
  }

  /** The second loop: goes on until what is left is in place. */
  method RotateRest<T>(a: array<T>, ghost goal: seq<T>, ghost first0: nat, first1: nat, middle1: nat, last: nat)
    requires first0 <= first1 < middle1 <= last <= a.Length
    requires Exchanged(a[..], goal, first0, first1, middle1, middle1, last)
    modifies a
    ensures a[..][first0..last] == goal
    ensures OnlyWithin(a, first0, last)
  {
    hide Exchanged;
    var first, middle, first2 := first1, middle1, middle1;
    while first2 != last
      invariant first0 <= first <= middle <= first2 <= last && (first < middle || first2 == last)
      invariant first2 == last ==> middle == last
      invariant Exchanged(a[..], goal, first0, first, middle, first2, last)
      invariant OnlyWithin(a, first0, last)
      decreases last - first
    {
      Exchange(a, goal, first0, first, middle, first2, last);
      first, first2 := first + 1, first2 + 1;
      ExchangeTurns(a[..], goal, first0, first, middle, first2, last);
      if first == middle {
        middle := first2;
      } else if first2 == last {
        first2 := middle;
      }
    }
    ExchangeEnds(a[..], goal, first0, first, last);
  }

  method Exchange<T>(a: array<T>, ghost goal: seq<T>, ghost first0: nat, first: nat, ghost middle: nat, first2: nat,
          ghost last: nat)
    requires first0 <= first < middle <= first2 < last <= a.Length
    requires Exchanged(a[..], goal, first0, first, middle, first2, last)
    modifies a
    ensures Exchanged(a[..], goal, first0, first + 1, middle, first2 + 1, last)
    ensures a[..first0] == old(a[..first0]) && a[last..] == old(a[last..])
  {
    ghost var s := a[..];
    a[first], a[first2] := a[first2], a[first];
    ExchangeStep(s, goal, first0, first, middle, first2, last, a[..]);
  }

  /** Where the element at `i` comes from when [first, last) is reversed. */
  function Mirror(first: nat, last: nat, i: int): int
  {
    if first <= i < last then first + last - 1 - i else i
  }

  /** reverse_dispatch for bidirectional iterators. */
  method Reverse<T>(a: array<T>, first0: nat, last0: nat)
    requires first0 <= last0 <= a.Length
    modifies a
    ensures Mirrored(old(a[..]), a[..], first0, last0)
  {
    hide Closing, Mirrored, Mirror;
    ghost var s0 := a[..];
    var first, last := first0, last0;
    ClosingBegins(a[..], first0, last0);
    while true
      invariant first0 <= first <= last <= last0 && first - first0 == last0 - last
      invariant Closing(s0, a[..], first0, first, last, last0)
      decreases last - first
    {
      ClosingMet(s0, a[..], first0, first, last, last0);
      if first == last || first == last - 1 {
        return;
      }
      SwapEnds(a, s0, first0, first, last, last0);
      first, last := first + 1, last - 1;
    }
  }

  method SwapEnds<T>(a: array<T>, ghost s0: seq<T>, ghost first0: nat, first: nat, last: nat, ghost last0: nat)
    requires first0 <= first < last - 1 < last <= last0 <= a.Length == |s0|
    requires Closing(s0, a[..], first0, first, last, last0)
    modifies a
    ensures Closing(s0, a[..], first0, first + 1, last - 1, last0)
  {
    ClosingStep(s0, a[..], first0, first, last, last0);
    a[first], a[last - 1] := a[last - 1], a[first];
  }

  /** Where the element at `i` comes from when [first, last) is rotated at `middle`. */
  function Turned(first: nat, middle: nat, last: nat, i: int): int
  {
    if first <= i < first + (last - middle) then i + (middle - first)
    else if first <= i < last then i - (last - middle)
    else i
  }

  lemma PointwiseRotated<T>(s: seq<T>, s': seq<T>, first: nat, middle: nat, last: nat)
    requires first <= middle <= last <= |s| == |s'|
    requires forall i :: 0 <= i < |s| ==> s'[i] == s[Turned(first, middle, last, i)]
    ensures s'[first..last] == Rotated(s[first..last], middle - first)
    ensures s'[..first] == s[..first] && s'[last..] == s[last..]
  {
    var t, t', l := s[first..last], s'[first..last], middle - first;
    assert |Rotated(t, l)| == |t| == |t'|;
    forall k | 0 <= k < |t|
      ensures t'[k] == Rotated(t, l)[k]
    {
      RotatedAt(t, l, k);
      hide Rotated;
      assert t'[k] == s'[first + k] == s[Turned(first, middle, last, first + k)];
    }
  }

  lemma RotatedAt<T>(t: seq<T>, l: nat, k: nat)
    requires l <= |t| && k < |t|
    ensures |Rotated(t, l)| == |t|
    ensures Rotated(t, l)[k] == if k < |t| - l then t[k + l] else t[k - (|t| - l)]
  {
  }

  ghost predicate Mirrored<T>(s: seq<T>, s': seq<T>, first: nat, last: nat)
    requires first <= last <= |s|
  {
    |s'| == |s| && forall i :: 0 <= i < |s| ==> s'[i] == s[Mirror(first, last, i)]
  }

  /** Reversing both parts and then the whole is a rotation. */
  lemma ThreeReversals<T>(s: seq<T>, s1: seq<T>, s2: seq<T>, s3: seq<T>, first: nat, middle: nat, last: nat)
    requires first <= middle <= last <= |s|
    requires Mirrored(s, s1, first, middle) && Mirrored(s1, s2, middle, last) && Mirrored(s2, s3, first, last)
    ensures s3[first..last] == Rotated(s[first..last], middle - first)
    ensures s3[..first] == s[..first] && s3[last..] == s[last..]
  {
    forall i | 0 <= i < |s|
      ensures s3[i] == s[Turned(first, middle, last, i)]
    {
      hide Rotated;
      var j := Mirror(first, last, i);
      assert s3[i] == s2[j];
      var k := Mirror(middle, last, j);
      assert s2[j] == s1[k];
      assert Mirror(first, middle, k) == Turned(first, middle, last, i);
    }
    PointwiseRotated(s, s3, first, middle, last);
  }

  /** rotate_dispatch for bidirectional iterators: three reversals, the last one partly done by swaps. */
  method RotateBidirectional<T>(a: array<T>, first: nat, middle: nat, last: nat) returns (newMiddle: nat)
    requires first < middle < last <= a.Length
    modifies a
    ensures a[first..last] == Rotated(old(a[first..last]), middle - first)
    ensures newMiddle == first + (last - middle)
    ensures OnlyWithin(a, first, last)
  {
    hide Rotated, Mirrored;
    ghost var s := a[..];
    Reverse(a, first, middle);
    ghost var s1 := a[..];
    Reverse(a, middle, last);
    ghost var s2 := a[..];
    newMiddle := ReverseAround(a, first, middle, last);
    ThreeReversals(s, s1, s2, a[..], first, middle, last);
    assert a[..][first..last] == a[first..last] && s[first..last] == old(a[first..last]);
    assert a[..][..first] == a[..first] && a[..][last..] == a[last..];
    assert s[..first] == old(a[..first]) && s[last..] == old(a[last..]);
  }

  /** Part way through a reversal from both ends. */
  ghost predicate Closing<T>(s: seq<T>, s': seq<T>, first0: nat, first: nat, last: nat, last0: nat)
    requires first0 <= first <= last <= last0 <= |s|
  {
    && |s'| == |s| && first - first0 == last0 - last
    && forall i :: 0 <= i < |s| ==> s'[i] == s[if first <= i < last then i else Mirror(first0, last0, i)]
  }

  lemma ClosingStep<T>(s: seq<T>, s': seq<T>, first0: nat, first: nat, last: nat, last0: nat)
    requires first0 <= first < last - 1 < last <= last0 <= |s|
    requires Closing(s, s', first0, first, last, last0)
    ensures Closing(s, s'[first := s'[last - 1]][last - 1 := s'[first]], first0, first + 1, last - 1, last0)
  {
  }

  /** Reversing what is left finishes the reversal. */
  lemma ClosingEnds<T>(s: seq<T>, s': seq<T>, s'': seq<T>, first0: nat, first: nat, last: nat, last0: nat)
    requires first0 <= first <= last <= last0 <= |s|
    requires Closing(s, s', first0, first, last, last0) && Mirrored(s', s'', first, last)
    ensures Mirrored(s, s'', first0, last0)
  {
  }

  /** Reverses [first0, last0): swaps from both ends until `middle` is met, then reverses what is left. */
  method ReverseAround<T>(a: array<T>, first0: nat, middle: nat, last0: nat) returns (newMiddle: nat)
    requires first0 < middle < last0 <= a.Length
    modifies a
    ensures Mirrored(old(a[..]), a[..], first0, last0)
    ensures newMiddle == first0 + (last0 - middle)
  {
    hide Closing, Mirrored, Mirror;
    ghost var s0 := a[..];
    var first, last := first0, last0;
    ClosingBegins(a[..], first0, last0);
    while first != middle && middle != last
      invariant first0 <= first <= middle <= last <= last0 && first - first0 == last0 - last
      invariant Closing(s0, a[..], first0, first, last, last0)
      decreases last - first
    {
      SwapEnds(a, s0, first0, first, last, last0);
      first, last := first + 1, last - 1;
    }
    ghost var s := a[..];
    if first == middle {
      Reverse(a, middle, last);
      newMiddle := last;
    } else {
      Reverse(a, first, middle);
      newMiddle := first;
    }
    ClosingEnds(s0, s, a[..], first0, first, last, last0);
  }

  lemma ClosingMet<T>(s: seq<T>, s': seq<T>, first0: nat, first: nat, last: nat, last0: nat)
    requires first0 <= first <= last <= last0 <= |s|
    requires Closing(s, s', first0, first, last, last0)
    ensures last - first <= 1 ==> Mirrored(s, s', first0, last0)
  {
  }

  lemma ClosingBegins<T>(s: seq<T>, first: nat, last: nat)
    requires first <= last <= |s|
    ensures Closing(s, s, first, first, last, last)
  {
  }
}
