// inplace_merge of dbase/stl/algo.h: with a buffer of any size, and without one.

module InplaceMerge {
  import opened StableOrder
  import opened EmptyBuffer
  import opened Copies
  import opened BufferMerge
  import opened RotateCycles

  /** lower_bound: the first position whose key is not below `value`. */
  method LowerBound(a: array<Item>, first0: nat, last: nat, value: Item) returns (first: nat)
    requires first0 <= last <= a.Length && Sorted(a[first0..last])
    ensures first0 <= first <= last
    ensures forall i :: first0 <= i < first ==> a[i].key < value.key
    ensures forall i :: first <= i < last ==> value.key <= a[i].key
  {
    first := first0;
    var len := last - first;
    while len > 0
      invariant 0 <= len && first0 <= first && first + len <= last
      invariant forall i :: first0 <= i < first ==> a[i].key < value.key
      invariant forall i :: first + len <= i < last ==> value.key <= a[i].key
    {
      var half := len / 2;
      var middle := first + half;
      SortedAt(a, first0, last, middle);
      if a[middle].key < value.key {
        first, len := middle + 1, len - half - 1;
      } else {
        len := half;
      }
    }
  }

  /** upper_bound: the first position whose key is above `value`. */
  method UpperBound(a: array<Item>, first0: nat, last: nat, value: Item) returns (first: nat)
    requires first0 <= last <= a.Length && Sorted(a[first0..last])
    ensures first0 <= first <= last
    ensures forall i :: first0 <= i < first ==> a[i].key <= value.key
    ensures forall i :: first <= i < last ==> value.key < a[i].key
  {
    first := first0;
    var len := last - first;
    while len > 0
      invariant 0 <= len && first0 <= first && first + len <= last
      invariant forall i :: first0 <= i < first ==> a[i].key <= value.key
      invariant forall i :: first + len <= i < last ==> value.key < a[i].key
    {
      var half := len / 2;
      var middle := first + half;
      SortedAt(a, first0, last, middle);
      if value.key < a[middle].key {
        len := half;
      } else {
        first, len := middle + 1, len - half - 1;
      }
    }
  }

  lemma SortedAt(a: array<Item>, first: nat, last: nat, middle: nat)
    requires first <= middle < last <= a.Length && Sorted(a[first..last])
    ensures forall i :: first <= i < middle ==> a[i].key <= a[middle].key
    ensures forall i :: middle <= i < last ==> a[middle].key <= a[i].key
  {
    var s := a[first..last];
    assert forall i :: first <= i < last ==> a[i] == s[i - first];
  }

  /** Cutting the runs there leaves two smaller merges once the middle parts have changed places. */
  ghost predicate CutsWell(s: seq<Item>, first: nat, firstCut: nat, middle: nat, secondCut: nat, last: nat) {
    && first <= firstCut <= middle <= secondCut <= last <= |s|
    && AtMost(s[first..firstCut], s[secondCut..last])
    && Below(s[middle..secondCut], s[firstCut..middle])
  }

  /** The cut both merges make: half of the longer run, and the matching place of the other one. */
  method FindCut(a: array<Item>, first: nat, middle: nat, last: nat) returns (firstCut: nat, secondCut: nat)
    requires first <= middle <= last <= a.Length && middle - first >= 1 && last - middle >= 1
    requires Sorted(a[first..middle]) && Sorted(a[middle..last])
    ensures CutsWell(a[..], first, firstCut, middle, secondCut, last)
    ensures last - first > 2 ==> 0 < (firstCut - first) + (secondCut - middle) < last - first
    ensures CutOf(a[first..middle], a[middle..last]) == Cut(firstCut - first, secondCut - middle)
  {
    hide CutOf, CutsWell, Sorted;
    if middle - first > last - middle {
      firstCut := first + (middle - first) / 2;
      secondCut := LowerBound(a, middle, last, a[firstCut]);
      SortedAt(a, first, middle, firstCut);
      WellInFirst(a, first, firstCut, middle, secondCut, last);
      CutInFirst(a, first, firstCut, middle, secondCut, last);
    } else {
      secondCut := middle + (last - middle) / 2;
      firstCut := UpperBound(a, first, middle, a[secondCut]);
      SortedAt(a, middle, last, secondCut);
      WellInSecond(a, first, firstCut, middle, secondCut, last);
      CutInSecond(a, first, firstCut, middle, secondCut, last);
    }
  }

  lemma WellInFirst(a: array<Item>, first: nat, firstCut: nat, middle: nat, secondCut: nat, last: nat)
    requires first <= firstCut < middle <= secondCut <= last <= a.Length
    requires forall i :: first <= i < firstCut ==> a[i].key <= a[firstCut].key
    requires forall i :: firstCut <= i < middle ==> a[firstCut].key <= a[i].key
    requires forall i :: middle <= i < secondCut ==> a[i].key < a[firstCut].key
    requires forall i :: secondCut <= i < last ==> a[firstCut].key <= a[i].key
    ensures CutsWell(a[..], first, firstCut, middle, secondCut, last)
  {
  }

  lemma WellInSecond(a: array<Item>, first: nat, firstCut: nat, middle: nat, secondCut: nat, last: nat)
    requires first <= firstCut <= middle <= secondCut < last <= a.Length
    requires forall i :: middle <= i < secondCut ==> a[i].key <= a[secondCut].key
    requires forall i :: secondCut <= i < last ==> a[secondCut].key <= a[i].key
    requires forall i :: first <= i < firstCut ==> a[i].key <= a[secondCut].key
    requires forall i :: firstCut <= i < middle ==> a[secondCut].key < a[i].key
    ensures CutsWell(a[..], first, firstCut, middle, secondCut, last)
  {
  }

  lemma CutInFirst(a: array<Item>, first: nat, firstCut: nat, middle: nat, secondCut: nat, last: nat)
    requires first < middle <= secondCut <= last <= a.Length && middle - first > last - middle > 0
    requires firstCut == first + (middle - first) / 2
    requires forall i :: middle <= i < secondCut ==> a[i].key < a[firstCut].key
    requires forall i :: secondCut <= i < last ==> a[firstCut].key <= a[i].key
    ensures CutOf(a[first..middle], a[middle..last]) == Cut(firstCut - first, secondCut - middle)
  {
    var y := a[middle..last];
    hide CountBelow, CountUpTo;
    assert a[first..middle][(middle - first) / 2] == a[firstCut];
    assert forall i :: 0 <= i < |y| ==> y[i] == a[middle + i];
    CountIsBelow(y, a[firstCut].key, secondCut - middle);
  }

  lemma CutInSecond(a: array<Item>, first: nat, firstCut: nat, middle: nat, secondCut: nat, last: nat)
    requires first <= firstCut <= middle < last <= a.Length && 0 < middle - first <= last - middle
    requires secondCut == middle + (last - middle) / 2
    requires forall i :: first <= i < firstCut ==> a[i].key <= a[secondCut].key
    requires forall i :: firstCut <= i < middle ==> a[secondCut].key < a[i].key
    ensures CutOf(a[first..middle], a[middle..last]) == Cut(firstCut - first, secondCut - middle)
  {
    var x := a[first..middle];
    hide CountBelow, CountUpTo;
    assert a[middle..last][(last - middle) / 2] == a[secondCut];
    assert forall i :: 0 <= i < |x| ==> x[i] == a[first + i];
    CountIsUpTo(x, a[secondCut].key, firstCut - first);
  }

  lemma CountIsBelow(s: seq<Item>, k: int, n: nat)
    requires n <= |s| && (forall i :: 0 <= i < n ==> s[i].key < k) && (n < |s| ==> s[n].key >= k)
    ensures CountBelow(s, k) == n
  {
  }

  lemma CountIsUpTo(s: seq<Item>, k: int, n: nat)
    requires n <= |s| && (forall i :: 0 <= i < n ==> s[i].key <= k) && (n < |s| ==> s[n].key > k)
    ensures CountUpTo(s, k) == n
  {
  }

  /** Two adjacent sorted runs. */
  ghost predicate Runs(s: seq<Item>, first: nat, middle: nat, last: nat) {
    first <= middle <= last <= |s| && Sorted(s[first..middle]) && Sorted(s[middle..last])
  }

  /** `t` is `s` with the two runs replaced by their stable merge. */
  ghost predicate MergedAt(s: seq<Item>, t: seq<Item>, first: nat, middle: nat, last: nat) {
    first <= middle <= last <= |s| && t == Overwrite(s, first, Merge(s[first..middle], s[middle..last]))
  }

  /** `t` is `s` with the two parts exchanged. */
  ghost predicate ExchangedAt<T>(s: seq<T>, t: seq<T>, first: nat, middle: nat, last: nat) {
    first <= middle <= last <= |s| && t == Overwrite(s, first, s[middle..last] + s[first..middle])
  }

  /** The four parts after the middle ones have changed places. */
  lemma AfterRotation(s: seq<Item>, t: seq<Item>, first: nat, firstCut: nat, middle: nat, secondCut: nat, last: nat)
    requires first <= firstCut <= middle <= secondCut <= last <= |s|
    requires ExchangedAt(s, t, firstCut, middle, secondCut)
    ensures var newMiddle := firstCut + (secondCut - middle);
            && |t| == |s| && t[..first] == s[..first] && t[last..] == s[last..]
            && t[first..firstCut] == s[first..firstCut] && t[firstCut..newMiddle] == s[middle..secondCut]
            && t[newMiddle..secondCut] == s[firstCut..middle] && t[secondCut..last] == s[secondCut..last]
  {
    OverwriteParts(s, firstCut, s[middle..secondCut] + s[firstCut..middle]);
    hide Overwrite;
    var newMiddle := firstCut + (secondCut - middle);
    HeadSlices(t, first, firstCut);
    HeadSlices(s, first, firstCut);
    TailSlices(t, secondCut, last);
    TailSlices(s, secondCut, last);
    assert t[firstCut..newMiddle] == t[firstCut..secondCut][..secondCut - middle];
    assert t[newMiddle..secondCut] == t[firstCut..secondCut][secondCut - middle..];
  }

  lemma RunsParts(s: seq<Item>, first: nat, cut: nat, last: nat)
    requires first <= cut <= last <= |s| && Sorted(s[first..last])
    ensures Sorted(s[first..cut]) && Sorted(s[cut..last]) && s[first..last] == s[first..cut] + s[cut..last]
  {
    assert s[first..last] == s[first..cut] + s[cut..last];
    SortedConcat(s[first..cut], s[cut..last]);
  }

  lemma RunsAfterRotation(s: seq<Item>, t: seq<Item>, first: nat, firstCut: nat, middle: nat, secondCut: nat, last: nat)
    requires Runs(s, first, middle, last) && CutsWell(s, first, firstCut, middle, secondCut, last)
    requires ExchangedAt(s, t, firstCut, middle, secondCut)
    ensures var newMiddle := firstCut + (secondCut - middle);
            && first <= firstCut <= newMiddle <= secondCut <= last
            && Runs(t, first, firstCut, newMiddle) && Runs(t, newMiddle, secondCut, last)
  {
    RunsParts(s, first, firstCut, middle);
    RunsParts(s, middle, secondCut, last);
    AfterRotation(s, t, first, firstCut, middle, secondCut, last);
    hide Sorted, ExchangedAt;
  }

  /** Merging the front does not disturb the runs behind it. */
  lemma RunsBehind(t: seq<Item>, u: seq<Item>, first: nat, firstCut: nat, newMiddle: nat, secondCut: nat, last: nat)
    requires MergedAt(t, u, first, firstCut, newMiddle) && newMiddle <= secondCut <= last <= |t|
    ensures |u| == |t| && u[newMiddle..secondCut] == t[newMiddle..secondCut] && u[secondCut..last] == t[secondCut..last]
    ensures u[..first] == t[..first] && u[last..] == t[last..]
    ensures u[first..newMiddle] == Merge(t[first..firstCut], t[firstCut..newMiddle])
  {
    OverwriteParts(t, first, Merge(t[first..firstCut], t[firstCut..newMiddle]));
    hide Overwrite, Merge;
    TailSlices(u, newMiddle, secondCut);
    TailSlices(t, newMiddle, secondCut);
    TailSlices(u, secondCut, last);
    TailSlices(t, secondCut, last);
    TailSlices(u, newMiddle, last);
    TailSlices(t, newMiddle, last);
  }

  lemma MergesInFront(u: seq<Item>, v: seq<Item>, first: nat, newMiddle: nat, secondCut: nat, last: nat)
    requires MergedAt(u, v, newMiddle, secondCut, last) && first <= newMiddle
    ensures |v| == |u| && v[first..newMiddle] == u[first..newMiddle] && v[..first] == u[..first]
              && v[last..] == u[last..]
    ensures v[newMiddle..last] == Merge(u[newMiddle..secondCut], u[secondCut..last])
  {
    OverwriteParts(u, newMiddle, Merge(u[newMiddle..secondCut], u[secondCut..last]));
    hide Overwrite, Merge;
    HeadSlices(u, first, newMiddle);
    HeadSlices(v, first, newMiddle);
  }

  lemma MergeOfCuts(s: seq<Item>, first: nat, firstCut: nat, middle: nat, secondCut: nat, last: nat)
    requires Runs(s, first, middle, last) && CutsWell(s, first, firstCut, middle, secondCut, last)
    ensures Merge(s[first..middle], s[middle..last])
         == Merge(s[first..firstCut], s[middle..secondCut]) + Merge(s[firstCut..middle], s[secondCut..last])
  {
    RunsParts(s, first, firstCut, middle);
    RunsParts(s, middle, secondCut, last);
    hide Merge, Sorted, AtMost, Below;
    MergeSplit(s[first..firstCut], s[firstCut..middle], s[middle..secondCut], s[secondCut..last]);
  }

  /** Exchanging the middle parts and merging both halves is merging the whole. */
  lemma Recombine(s: seq<Item>, t: seq<Item>, u: seq<Item>, v: seq<Item>, first: nat, firstCut: nat, middle: nat,
          secondCut: nat, last: nat)
    requires Runs(s, first, middle, last) && CutsWell(s, first, firstCut, middle, secondCut, last)
    requires ExchangedAt(s, t, firstCut, middle, secondCut)
    requires MergedAt(t, u, first, firstCut, firstCut + (secondCut - middle))
    requires MergedAt(u, v, firstCut + (secondCut - middle), secondCut, last)
    ensures MergedAt(s, v, first, middle, last)
  {
    var newMiddle := firstCut + (secondCut - middle);
    hide Merge, Sorted, Overwrite, AtMost, Below, ExchangedAt, MergedAt;
    AfterRotation(s, t, first, firstCut, middle, secondCut, last);
    RunsBehind(t, u, first, firstCut, newMiddle, secondCut, last);
    MergesInFront(u, v, first, newMiddle, secondCut, last);
    MergeOfCuts(s, first, firstCut, middle, secondCut, last);
    MergedWhole(s, v, first, middle, last, newMiddle);
  }

  lemma MergedWhole(s: seq<Item>, v: seq<Item>, first: nat, middle: nat, last: nat, newMiddle: nat)
    requires first <= middle <= last <= |s| == |v| && first <= newMiddle <= last
    requires v[..first] == s[..first] && v[last..] == s[last..]
    requires v[first..newMiddle] + v[newMiddle..last] == Merge(s[first..middle], s[middle..last])
    ensures MergedAt(s, v, first, middle, last)
  {
    hide Merge, Overwrite;
    assert v[first..last] == v[first..newMiddle] + v[newMiddle..last];
    OverwriteIs(s, first, Merge(s[first..middle], s[middle..last]), v);
  }

  lemma WritesSideBySide<T>(s: seq<T>, first: nat, p: seq<T>, q: seq<T>)
    requires first + |p| + |q| <= |s|
    ensures Overwrite(Overwrite(s, first + |p|, q), first, p) == Overwrite(s, first, p + q)
    ensures Overwrite(Overwrite(s, first, p), first + |p|, q) == Overwrite(s, first, p + q)
  {
  }

  /** rotate_adaptive: goes through the buffer when one of the parts fits into it. */
  method RotateAdaptive(a: array<Item>, first: nat, middle: nat, last: nat, buffer: array<Item>, bufferSize: nat,
          category: IteratorCategory)
    returns (newMiddle: nat)
    requires first <= middle <= last <= a.Length && bufferSize <= buffer.Length && a != buffer
    modifies a, buffer
    ensures ExchangedAt(old(a[..]), a[..], first, middle, last)
    ensures newMiddle == first + (last - middle)
  {
    hide Overwrite;
    var len1, len2 := middle - first, last - middle;
    ghost var s, x, y := a[..], a[first..middle], a[middle..last];
    assert x == s[first..middle] && y == s[middle..last];
    WritesSideBySide(s, first, y, x);
    if len1 > len2 && len2 <= bufferSize {
      var bufferEnd := Copy(a, middle, last, buffer, 0);
      OverwriteParts(old(buffer[..]), 0, y);
      assert buffer[0..bufferEnd] == buffer[..][0..bufferEnd];
      var end := CopyBackward(a, first, middle, a, last);
      newMiddle := Copy(buffer, 0, bufferEnd, a, first);
    } else if len1 <= bufferSize {
      var bufferEnd := Copy(a, first, middle, buffer, 0);
      OverwriteParts(old(buffer[..]), 0, x);
      assert buffer[0..bufferEnd] == buffer[..][0..bufferEnd];
      var end := Copy(a, middle, last, a, first);
      newMiddle := CopyBackward(buffer, 0, bufferEnd, a, last);
    } else {
      newMiddle := RotateWhole(a, first, middle, last, category);
    }
  }

  /** rotate, seen on the whole array. */
  method RotateWhole(a: array<Item>, first: nat, middle: nat, last: nat, category: IteratorCategory)
    returns (newMiddle: nat)
    requires first <= middle <= last <= a.Length
    modifies a
    ensures ExchangedAt(old(a[..]), a[..], first, middle, last)
    ensures newMiddle == first + (last - middle)
  {
    hide Overwrite;
    ghost var s := a[..];
    assert s[middle..last] == a[middle..last] && s[first..middle] == a[first..middle];
    assert s[..first] == a[..first] && s[last..] == a[last..];
    newMiddle := RotateRange(a, first, middle, last, category);
    assert a[..][first..last] == a[first..last] && a[..][..first] == a[..first] && a[..][last..] == a[last..];
    OverwriteIs(s, first, s[middle..last] + s[first..middle], a[..]);
  }

  lemma NothingToMerge(s: seq<Item>, first: nat, middle: nat, last: nat)
    requires first <= middle <= last <= |s| && (first == middle || middle == last)
    ensures MergedAt(s, s, first, middle, last)
  {
    MergeRest(s[first..middle], s[middle..last]);
    hide Merge, Overwrite;
    assert s[first..last] == s[first..middle] + s[middle..last];
    OverwriteIs(s, first, s[first..last], s);
  }

  lemma TwoToMerge(s: seq<Item>, first: nat)
    requires first + 2 <= |s|
    ensures s[first + 1].key < s[first].key ==>
              MergedAt(s, s[first := s[first + 1]][first + 1 := s[first]], first, first + 1, first + 2)
    ensures s[first + 1].key >= s[first].key ==> MergedAt(s, s, first, first + 1, first + 2)
  {
    var x, y := s[first], s[first + 1];
    assert s[first..first + 1] == [x] && s[first + 1..first + 2] == [y];
    MergeTwo(x, y);
    hide Merge, Overwrite;
    if y.key < x.key {
      OverwriteIs(s, first, [y, x], s[first := y][first + 1 := x]);
    } else {
      OverwriteIs(s, first, [x, y], s);
    }
  }

  lemma MergeTwo(x: Item, y: Item)
    ensures Merge([x], [y]) == if y.key < x.key then [y, x] else [x, y]
  {
  }

  /** merge_without_buffer. */
  method MergeWithoutBuffer(a: array<Item>, first: nat, middle: nat, last: nat, category: IteratorCategory)
    requires first <= middle <= last <= a.Length && Runs(a[..], first, middle, last)
    modifies a
    ensures MergedAt(old(a[..]), a[..], first, middle, last)
    decreases last - first
  {
    hide Runs, MergedAt, CutsWell, ExchangedAt;
    ghost var s := a[..];
    if first == middle || middle == last {
      NothingToMerge(s, first, middle, last);
      return;
    }
    if last - first == 2 {
      TwoToMerge(s, first);
      if a[middle].key < a[first].key {
        a[first], a[middle] := a[middle], a[first];
      }
      return;
    }
    RunsOf(a, first, middle, last);
    var firstCut, secondCut := FindCut(a, first, middle, last);
    CutsOf(s, first, firstCut, middle, secondCut, last);
    var newMiddle := RotateWhole(a, firstCut, middle, secondCut, category);
    ghost var t := a[..];
    RunsAfterRotation(s, t, first, firstCut, middle, secondCut, last);
    MergeWithoutBuffer(a, first, firstCut, newMiddle, category);
    ghost var u := a[..];
    RunsStay(t, u, first, firstCut, newMiddle, secondCut, last);
    MergeWithoutBuffer(a, newMiddle, secondCut, last, category);
    Recombine(s, t, u, a[..], first, firstCut, middle, secondCut, last);
  }

  lemma RunsOf(a: array<Item>, first: nat, middle: nat, last: nat)
    requires first <= middle <= last <= a.Length && Runs(a[..], first, middle, last)
    ensures Sorted(a[first..middle]) && Sorted(a[middle..last])
  {
    assert a[..][first..middle] == a[first..middle] && a[..][middle..last] == a[middle..last];
  }

  lemma CutsOf(s: seq<Item>, first: nat, firstCut: nat, middle: nat, secondCut: nat, last: nat)
    requires CutsWell(s, first, firstCut, middle, secondCut, last)
    ensures first <= firstCut <= middle <= secondCut <= last
  {
  }

  lemma RunsStay(t: seq<Item>, u: seq<Item>, first: nat, firstCut: nat, newMiddle: nat, secondCut: nat, last: nat)
    requires Runs(t, newMiddle, secondCut, last) && MergedAt(t, u, first, firstCut, newMiddle)
    ensures Runs(u, newMiddle, secondCut, last)
  {
    RunsBehind(t, u, first, firstCut, newMiddle, secondCut, last);
  }

  /** What merge_adaptive needs to come to an end: some buffer, or runs that the cuts take apart without one. */
  ghost predicate Endable(s: seq<Item>, first: nat, middle: nat, last: nat, bufferSize: nat) {
    first <= middle <= last <= |s| && (bufferSize > 0 || CutsApart(s[first..middle], s[middle..last]))
  }

  /** The cut of two endable runs gives two shorter pairs of endable runs. */
  lemma EndableParts(s: seq<Item>, t: seq<Item>, first: nat, firstCut: nat, middle: nat, secondCut: nat, last: nat,
          bufferSize: nat)
    requires Endable(s, first, middle, last, bufferSize) && ExchangedAt(s, t, firstCut, middle, secondCut)
    requires first < middle < last && first <= firstCut <= middle <= secondCut <= last
    requires CutOf(s[first..middle], s[middle..last]) == Cut(firstCut - first, secondCut - middle)
    requires last - first == 2 ==> bufferSize == 0
    ensures var newMiddle := firstCut + (secondCut - middle);
            && Endable(t, first, firstCut, newMiddle, bufferSize) && Endable(t, newMiddle, secondCut, last, bufferSize)
            && first < newMiddle < last
  {
    hide CutOf, CutsApart;
    var x, y, c := s[first..middle], s[middle..last], Cut(firstCut - first, secondCut - middle);
    RotatedParts(s, t, first, firstCut, middle, secondCut, last);
    hide ExchangedAt;
    if bufferSize == 0 {
      ApartParts(x, y, c);
    } else {
      ProperCut(x, y, c);
    }
  }

  lemma RotatedParts(s: seq<Item>, t: seq<Item>, first: nat, firstCut: nat, middle: nat, secondCut: nat, last: nat)
    requires first <= firstCut <= middle <= secondCut <= last <= |s| && ExchangedAt(s, t, firstCut, middle, secondCut)
    ensures var newMiddle, x, y := firstCut + (secondCut - middle), s[first..middle], s[middle..last];
            && |t| == |s|
            && t[first..firstCut] == x[..firstCut - first] && t[firstCut..newMiddle] == y[..secondCut - middle]
            && t[newMiddle..secondCut] == x[firstCut - first..] && t[secondCut..last] == y[secondCut - middle..]
  {
    AfterRotation(s, t, first, firstCut, middle, secondCut, last);
    hide ExchangedAt;
    SubSlices(s, first, firstCut, middle);
    SubSlices(s, middle, secondCut, last);
  }

  lemma SubSlices<T>(s: seq<T>, i: nat, j: nat, k: nat)
    requires i <= j <= k <= |s|
    ensures s[i..k][..j - i] == s[i..j] && s[i..k][j - i..] == s[j..k]
  {
  }

  lemma EndableStays(t: seq<Item>, u: seq<Item>, first: nat, firstCut: nat, newMiddle: nat, secondCut: nat, last: nat,
          bufferSize: nat)
    requires Endable(t, newMiddle, secondCut, last, bufferSize) && MergedAt(t, u, first, firstCut, newMiddle)
    ensures Endable(u, newMiddle, secondCut, last, bufferSize)
  {
    RunsBehind(t, u, first, firstCut, newMiddle, secondCut, last);
  }

  /** merge_adaptive, for every buffer with which it ends. */
  method MergeAdaptive(a: array<Item>, first: nat, middle: nat, last: nat, buffer: array<Item>, bufferSize: nat,
          category: IteratorCategory)
    requires first <= middle <= last <= a.Length && Runs(a[..], first, middle, last)
    requires bufferSize <= buffer.Length && a != buffer && Endable(a[..], first, middle, last, bufferSize)
    modifies a, buffer
    ensures MergedAt(old(a[..]), a[..], first, middle, last)
    decreases last - first
  {
    hide Runs, MergedAt, CutsWell, ExchangedAt, Endable, CutOf;
    var len1, len2 := middle - first, last - middle;
    if len1 <= len2 && len1 <= bufferSize {
      MergeByForwardCopy(a, first, middle, last, buffer);
    } else if len2 <= bufferSize {
      MergeByBackwardCopy(a, first, middle, last, buffer);
    } else {
      ghost var s := a[..];
      RunsOf(a, first, middle, last);
      var firstCut, secondCut := FindCut(a, first, middle, last);
      assert s[first..middle] == a[first..middle] && s[middle..last] == a[middle..last];
      CutsOf(s, first, firstCut, middle, secondCut, last);
      var newMiddle := RotateAdaptive(a, firstCut, middle, secondCut, buffer, bufferSize, category);
      ghost var t := a[..];
      RunsAfterRotation(s, t, first, firstCut, middle, secondCut, last);
      EndableParts(s, t, first, firstCut, middle, secondCut, last, bufferSize);
      MergeAdaptive(a, first, firstCut, newMiddle, buffer, bufferSize, category);
      ghost var u := a[..];
      RunsStay(t, u, first, firstCut, newMiddle, secondCut, last);
      EndableStays(t, u, first, firstCut, newMiddle, secondCut, last, bufferSize);
      MergeAdaptive(a, newMiddle, secondCut, last, buffer, bufferSize, category);
      Recombine(s, t, u, a[..], first, firstCut, middle, secondCut, last);
    }
  }

  /** Why it does not end otherwise: of two single items in the wrong order the cut and the rotation make
      nothing, and the same two items again. */
  lemma EmptyBufferRepeats(s: seq<Item>, t: seq<Item>, first: nat, firstCut: nat, secondCut: nat)
    requires first + 2 <= |s| && s[first + 1].key < s[first].key && first <= firstCut && first + 1 <= secondCut
    requires CutOf(s[first..first + 1], s[first + 1..first + 2]) == Cut(firstCut - first, secondCut - (first + 1))
    requires ExchangedAt(s, t, firstCut, first + 1, secondCut)
    ensures firstCut + (secondCut - (first + 1)) == first && secondCut == first + 1 && t == s
  {
    SingleCut(s[first..first + 1], s[first + 1..first + 2]);
    AfterRotation(s, t, first, firstCut, first + 1, secondCut, first + 1);
    hide ExchangedAt, CutOf;
    assert t == t[..first] + t[first..first + 1] + t[first + 1..];
    assert s == s[..first] + s[first..first + 1] + s[first + 1..];
  }

  method MergeByForwardCopy(a: array<Item>, first: nat, middle: nat, last: nat, buffer: array<Item>)
    requires first <= middle <= last <= a.Length && middle - first <= buffer.Length && a != buffer
    modifies a, buffer
    ensures MergedAt(old(a[..]), a[..], first, middle, last)
  {
    hide Overwrite, Merge;
    ghost var s := a[..];
    assert s[first..middle] == a[first..middle] && s[middle..last] == a[middle..last];
    var bufferEnd := Copy(a, first, middle, buffer, 0);
    OverwriteParts(old(buffer[..]), 0, s[first..middle]);
    assert buffer[..bufferEnd] == buffer[..][0..bufferEnd];
    MergeForward(buffer, bufferEnd, a, middle, last, first);
  }

  method MergeByBackwardCopy(a: array<Item>, first: nat, middle: nat, last: nat, buffer: array<Item>)
    requires first <= middle <= last <= a.Length && last - middle <= buffer.Length && a != buffer
    requires Runs(a[..], first, middle, last)
    modifies a, buffer
    ensures MergedAt(old(a[..]), a[..], first, middle, last)
  {
    hide Overwrite, Merge, Sorted;
    ghost var s := a[..];
    assert s[first..middle] == a[first..middle] && s[middle..last] == a[middle..last];
    var bufferEnd := Copy(a, middle, last, buffer, 0);
    OverwriteParts(old(buffer[..]), 0, s[middle..last]);
    assert buffer[..bufferEnd] == buffer[..][0..bufferEnd];
    MergeBackward(a, first, middle, buffer, bufferEnd, last);
  }

  /** inplace_merge. The buffer is what could be allocated, possibly less than asked for and possibly nothing. */
  method Merged(a: array<Item>, first: nat, middle: nat, last: nat, buffer: array<Item>, category: IteratorCategory)
    requires first <= middle <= last <= a.Length && a != buffer
    requires Sorted(a[first..middle]) && Sorted(a[middle..last])
    modifies a, buffer
    ensures MergesStably(old(a[first..middle]), old(a[middle..last]), a[first..last])
    ensures a[..first] == old(a[..first]) && a[last..] == old(a[last..])
  {
    hide Overwrite, Merge, Sorted, MergesStably, MergedAt;
    ghost var s := a[..];
    assert s[first..middle] == a[first..middle] && s[middle..last] == a[middle..last];
    assert s[..first] == a[..first] && s[last..] == a[last..];
    if first == middle || middle == last {
      NothingToMerge(s, first, middle, last);
    } else if buffer.Length == 0 {
      MergeWithoutBuffer(a, first, middle, last, category);
    } else {
      assert Endable(s, first, middle, last, buffer.Length);
      MergeAdaptive(a, first, middle, last, buffer, buffer.Length, category);
    }
    MergedParts(s, a[..], first, middle, last);
    assert a[..][first..last] == a[first..last] && a[..][..first] == a[..first] && a[..][last..] == a[last..];
  }

  lemma MergedParts(s: seq<Item>, t: seq<Item>, first: nat, middle: nat, last: nat)
    requires MergedAt(s, t, first, middle, last) && Runs(s, first, middle, last)
    ensures |t| == |s| && t[..first] == s[..first] && t[last..] == s[last..]
    ensures MergesStably(s[first..middle], s[middle..last], t[first..last])
  {
    hide Merge, Overwrite, MergesStably, Sorted;
    OverwriteParts(s, first, Merge(s[first..middle], s[middle..last]));
    MergeUnique(s[first..middle], s[middle..last], t[first..last]);
  }
}
