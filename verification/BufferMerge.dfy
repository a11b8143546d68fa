// Merging two adjacent sorted runs of an array when one of them fits into a buffer (dbase/stl/algo.h).

module BufferMerge {
  import opened StableOrder
  import opened Copies

  lemma MergeAdvance(goal: seq<Item>, done: seq<Item>, x: seq<Item>, y: seq<Item>)
    requires goal == done + Merge(x, y) && x != [] && y != []
    ensures y[0].key < x[0].key ==> goal == (done + [y[0]]) + Merge(x, y[1..])
    ensures y[0].key >= x[0].key ==> goal == (done + [x[0]]) + Merge(x[1..], y)
  {
  }

  lemma MergeRest(x: seq<Item>, y: seq<Item>)
    ensures x == [] ==> Merge(x, y) == y
    ensures y == [] ==> Merge(x, y) == x
  {
  }

  /** merge of buffer[..len1] and [first2, last2) into the room just before the second range: the output catches up
      with the second input but never overtakes it. */
  method MergeForward(buffer: array<Item>, len1: nat, a: array<Item>, first20: nat, last2: nat, result0: nat)
    requires len1 <= buffer.Length && result0 + len1 == first20 <= last2 <= a.Length && a != buffer
    modifies a
    ensures a[..] == Overwrite(old(a[..]), result0, Merge(buffer[..len1], old(a[first20..last2])))
  {
    hide Merge, Overwrite;
    ghost var s, goal := a[..], Merge(buffer[..len1], a[first20..last2]);
    var first1, first2, result := 0, first20, result0;
    assert a[result0..result0] + Merge(buffer[0..len1], a[first2..last2]) == goal by {
      assert buffer[0..len1] == buffer[..len1];
    }
    while first1 != len1 && first2 != last2
      invariant first1 <= len1 && first20 <= first2 <= last2 && result0 <= result && result + (len1 - first1) == first2
      invariant goal == a[result0..result] + Merge(buffer[first1..len1], a[first2..last2])
      invariant a[..result0] == s[..result0] && a[last2..] == s[last2..]
      decreases len1 - first1 + (last2 - first2)
    {
      ghost var done, x, y := a[result0..result], buffer[first1..len1], a[first2..last2];
      MergeAdvance(goal, done, x, y);
      if a[first2].key < buffer[first1].key {
        a[result] := a[first2];
        first2 := first2 + 1;
        assert a[first2..last2] == y[1..];
      } else {
        a[result] := buffer[first1];
        first1 := first1 + 1;
        assert buffer[first1..len1] == x[1..] && a[first2..last2] == y;
      }
      result := result + 1;
      assert a[result0..result] == done + [a[result - 1]];
    }
    MergeRest(buffer[first1..len1], a[first2..last2]);
    MergeTail(buffer, first1, len1, a, first2, last2, result, result0);
    OverwriteIs(s, result0, goal, a[..]);
  }

  lemma OverwriteIs<T>(s: seq<T>, at: nat, part: seq<T>, t: seq<T>)
    requires at + |part| <= |s| == |t|
    requires t[..at] == s[..at] && t[at..at + |part|] == part && t[at + |part|..] == s[at + |part|..]
    ensures t == Overwrite(s, at, part)
  {
    assert t == t[..at] + t[at..at + |part|] + t[at + |part|..];
  }

  /** The rest of whichever range is left; the rest of the second one is already where it belongs. */
  method MergeTail(buffer: array<Item>, first1: nat, len1: nat, a: array<Item>, first2: nat, last2: nat, result: nat,
          ghost result0: nat)
    requires first1 <= len1 <= buffer.Length && result + (len1 - first1) == first2 <= last2 <= a.Length && a != buffer
    requires (first1 == len1 || first2 == last2) && result0 <= result
    modifies a
    ensures a[..result0] == old(a[..result0]) && a[last2..] == old(a[last2..])
    ensures a[result0..last2]
         == old(a[result0..result]) + old(if first1 == len1 then a[first2..last2] else buffer[first1..len1])
  {
    hide Overwrite;
    ghost var s := a[..];
    var end := Copy(buffer, first1, len1, a, result);
    OverwriteParts(s, result, buffer[first1..len1]);
    ghost var t := a[..];
    end := Copy(a, first2, last2, a, end);
    OverwriteParts(t, first2, t[first2..last2]);
    assert t[first2..last2] == s[first2..last2];
    OverwriteSame(t, first2, last2);
    TailParts(s, t, result0, result, first2, last2, buffer[first1..len1]);
  }

  lemma OverwriteSame<T>(s: seq<T>, first: nat, last: nat)
    requires first <= last <= |s|
    ensures Overwrite(s, first, s[first..last]) == s
  {
  }

  lemma TailParts<T>(s: seq<T>, t: seq<T>, result0: nat, result: nat, first2: nat, last2: nat, part: seq<T>)
    requires result0 <= result && result + |part| == first2 <= last2 <= |s| == |t|
    requires t[..result] == s[..result] && t[result..first2] == part && t[first2..] == s[first2..]
    ensures t[..result0] == s[..result0] && t[last2..] == s[last2..]
    ensures t[result0..last2] == s[result0..result] + part + s[first2..last2]
  {
    HeadSlices(t, result0, result);
    HeadSlices(s, result0, result);
    TailSlices(t, first2, last2);
    TailSlices(s, first2, last2);
    assert t[result0..last2] == t[result0..result] + t[result..first2] + t[first2..last2];
  }

  lemma MergeRetreat(goal: seq<Item>, x: seq<Item>, a: Item, y: seq<Item>, b: Item, done: seq<Item>)
    requires goal == Merge(x + [a], y + [b]) + done && Sorted(x + [a]) && Sorted(y + [b])
    ensures b.key < a.key ==> goal == Merge(x, y + [b]) + ([a] + done)
    ensures b.key >= a.key ==> goal == Merge(x + [a], y) + ([b] + done)
    ensures Sorted(x) && Sorted(y)
  {
    SortedConcat(x, [a]);
    SortedConcat(y, [b]);
    MergeBack(x, y, a, b);
    hide Merge, Sorted;
    if b.key < a.key {
      ShiftLast(goal, Merge(x + [a], y + [b]), Merge(x, y + [b]), a, done);
    } else {
      ShiftLast(goal, Merge(x + [a], y + [b]), Merge(x + [a], y), b, done);
    }
  }

  lemma ShiftLast<T>(goal: seq<T>, m: seq<T>, front: seq<T>, e: T, done: seq<T>)
    requires goal == m + done && m == front + [e]
    ensures goal == front + ([e] + done)
  {
  }

  /** merge_backward of [first1, last10) and buffer[..len2], from the end `result0` of the room behind the first
      range. */
  method MergeBackward(a: array<Item>, first1: nat, last10: nat, buffer: array<Item>, len2: nat, result0: nat)
    requires first1 <= last10 && last10 + len2 == result0 <= a.Length && len2 <= buffer.Length && a != buffer
    requires Sorted(a[first1..last10]) && Sorted(buffer[..len2])
    modifies a
    ensures a[..] == Overwrite(old(a[..]), first1, Merge(old(a[first1..last10]), buffer[..len2]))
  {
    hide Merge, Overwrite, Sorted;
    ghost var s, goal := a[..], Merge(a[first1..last10], buffer[..len2]);
    MergeRest(a[first1..last10], buffer[..len2]);
    if first1 == last10 {
      var end := CopyBackward(buffer, 0, len2, a, result0);
      assert buffer[0..len2] == buffer[..len2];
      return;
    }
    if len2 == 0 {
      var end := CopyBackward(a, first1, last10, a, result0);
      return;
    }
    BackwardLoop(a, first1, last10, buffer, len2, result0);
  }

  /** Part way through: t[first1..last1] and b[..last2] are still to be merged in front of t[result..result0]. */
  ghost predicate Backing(t: seq<Item>, b: seq<Item>, s: seq<Item>, goal: seq<Item>, first1: nat, last1: nat,
          last2: nat, result: nat, result0: nat)
  {
    && first1 <= last1 <= result <= result0 <= |t| == |s| && last2 <= |b| && result == last1 + last2
    && |goal| == result0 - first1
    && Sorted(t[first1..last1]) && Sorted(b[..last2])
    && goal == Merge(t[first1..last1], b[..last2]) + t[result..result0]
    && t[..first1] == s[..first1] && t[result0..] == s[result0..]
  }

  lemma BackingStep(t: seq<Item>, b: seq<Item>, s: seq<Item>, goal: seq<Item>, first1: nat, last1: nat, last2: nat,
          result: nat, result0: nat)
    requires Backing(t, b, s, goal, first1, last1, last2, result, result0) && first1 < last1 && 0 < last2
    ensures b[last2 - 1].key < t[last1 - 1].key
            ==> Backing(t[result - 1 := t[last1 - 1]], b, s, goal, first1, last1 - 1, last2, result - 1, result0)
    ensures b[last2 - 1].key >= t[last1 - 1].key
            ==> Backing(t[result - 1 := b[last2 - 1]], b, s, goal, first1, last1, last2 - 1, result - 1, result0)
  {
    var x, y, e1, e2 := t[first1..last1 - 1], b[..last2 - 1], t[last1 - 1], b[last2 - 1];
    assert t[first1..last1] == x + [e1] && b[..last2] == y + [e2];
    MergeRetreat(goal, x, e1, y, e2, t[result..result0]);
    var e := if e2.key < e1.key then e1 else e2;
    var t' := t[result - 1 := e];
    assert t'[result - 1..result0] == [e] + t[result..result0];
    assert t'[first1..last1 - 1] == x && (e2.key >= e1.key ==> t'[first1..last1] == x + [e1]);
    hide Merge, Sorted;
  }

  lemma BackingBegins(t: seq<Item>, b: seq<Item>, first1: nat, last1: nat, last2: nat, result: nat)
    requires first1 <= last1 <= result <= |t| && last2 <= |b| && result == last1 + last2
    requires Sorted(t[first1..last1]) && Sorted(b[..last2])
    ensures Backing(t, b, t, Merge(t[first1..last1], b[..last2]), first1, last1, last2, result, result)
  {
  }

  /** Once a range is used up the other one comes in front. */
  lemma BackingEnds(t: seq<Item>, b: seq<Item>, s: seq<Item>, goal: seq<Item>, first1: nat, last1: nat, last2: nat,
          result: nat, result0: nat)
    requires Backing(t, b, s, goal, first1, last1, last2, result, result0)
    ensures last1 == first1 ==> Overwrite(t, first1, b[..last2]) == Overwrite(s, first1, goal)
    ensures last2 == 0 ==> Overwrite(t, first1, t[first1..last1]) == Overwrite(s, first1, goal)
  {
    var part := if last1 == first1 then b[..last2] else t[first1..last1];
    MergeRest(t[first1..last1], b[..last2]);
    hide Merge, Sorted;
    if last1 == first1 || last2 == 0 {
      assert goal == part + t[result..result0];
      TailSlices(t, result, result0);
      OverwriteTwice(t, s, first1, part, goal, result0);
    }
    if last2 == 0 {
      assert b[..last2] == [];
    }
  }

  lemma OverwriteTwice<T>(t: seq<T>, s: seq<T>, first: nat, part: seq<T>, goal: seq<T>, last: nat)
    requires first + |part| <= last <= |t| == |s| && goal == part + t[first + |part|..last]
    requires t[..first] == s[..first] && t[last..] == s[last..]
    ensures Overwrite(t, first, part) == Overwrite(s, first, goal)
  {
    TailSlices(t, first + |part|, last);
    assert t[first + |part|..] == t[first + |part|..last] + t[last..];
  }

  lemma HeadSlices<T>(u: seq<T>, i: nat, j: nat)
    requires i <= j <= |u|
    ensures u[..i] == u[..j][..i] && u[i..j] == u[..j][i..]
  {
  }

  lemma TailSlices<T>(u: seq<T>, i: nat, j: nat)
    requires i <= j <= |u|
    ensures u[i..j] == u[i..][..j - i] && u[j..] == u[i..][j - i..]
  {
  }

  /** The loop of merge_backward, both ranges being non-empty. */
  method BackwardLoop(a: array<Item>, first1: nat, last10: nat, buffer: array<Item>, len2: nat, result0: nat)
    requires first1 < last10 && last10 + len2 == result0 <= a.Length && 0 < len2 <= buffer.Length && a != buffer
    requires Sorted(a[first1..last10]) && Sorted(buffer[..len2])
    modifies a
    ensures a[..] == Overwrite(old(a[..]), first1, Merge(old(a[first1..last10]), buffer[..len2]))
  {
    hide Merge, Overwrite, Sorted, Backing;
    ghost var s, b, goal := a[..], buffer[..], Merge(a[first1..last10], buffer[..len2]);
    assert s[first1..last10] == a[first1..last10] && b[..len2] == buffer[..len2];
    var last1, last2, result := last10 - 1, len2 - 1, result0;
    BackingBegins(s, b, first1, last10, len2, result0);
    while true
      invariant first1 <= last1 && 0 <= last2 < len2 && result == last1 + last2 + 2 <= result0
      invariant Backing(a[..], buffer[..], s, goal, first1, last1 + 1, last2 + 1, result, result0)
      decreases last1 + last2
    {
      BackingStep(a[..], buffer[..], s, goal, first1, last1 + 1, last2 + 1, result, result0);
      result := result - 1;
      if buffer[last2].key < a[last1].key {
        a[result] := a[last1];
        if first1 == last1 {
          BackingEnds(a[..], buffer[..], s, goal, first1, last1, last2 + 1, result, result0);
          last2 := last2 + 1;
          assert buffer[0..last2] == buffer[..][..last2];
          var end := CopyBackward(buffer, 0, last2, a, result);
          return;
        }
        last1 := last1 - 1;
      } else {
        a[result] := buffer[last2];
        if last2 == 0 {
          BackingEnds(a[..], buffer[..], s, goal, first1, last1 + 1, last2, result, result0);
          last1 := last1 + 1;
          assert a[first1..last1] == a[..][first1..last1];
          var end := CopyBackward(a, first1, last1, a, result);
          return;
        }
        last2 := last2 - 1;
      }
    }
  }
}
