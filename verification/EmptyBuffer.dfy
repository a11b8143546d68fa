// When merge_adaptive ends although it has been given an empty buffer.

module EmptyBuffer {
  import opened StableOrder

  /** How many items at the front have keys below `k`: what lower_bound finds in a sorted run. */
  function CountBelow(s: seq<Item>, k: int): (n: nat)
    ensures n <= |s|
    ensures forall i :: 0 <= i < n ==> s[i].key < k
    ensures n < |s| ==> s[n].key >= k
  {
    if s == [] || s[0].key >= k then 0 else 1 + CountBelow(s[1..], k)
  }

  /** How many items at the front have keys of at most `k`: what upper_bound finds in a sorted run. */
  function CountUpTo(s: seq<Item>, k: int): (n: nat)
    ensures n <= |s|
    ensures forall i :: 0 <= i < n ==> s[i].key <= k
    ensures n < |s| ==> s[n].key > k
  {
    if s == [] || s[0].key > k then 0 else 1 + CountUpTo(s[1..], k)
  }

  datatype Cut = Cut(left: nat, right: nat)

  /** The cut of both merges: how much of each run goes to the first part. */
  function CutOf(x: seq<Item>, y: seq<Item>): (c: Cut)
    requires x != [] && y != []
    ensures c.left <= |x| && c.right <= |y|
    ensures |x| + |y| > 2 ==> 0 < c.left + c.right < |x| + |y|
  {
    if |x| > |y| then Cut(|x| / 2, CountBelow(y, x[|x| / 2].key))
    else Cut(CountUpTo(x, y[|y| / 2].key), |y| / 2)
  }

  /** The calls of merge_adaptive on two runs with an empty buffer are nested at most `depth` deep. */
  predicate EndsWithin(x: seq<Item>, y: seq<Item>, depth: nat)
    decreases depth
  {
    x == [] || y == [] ||
    (depth > 0 &&
     var c := CutOf(x, y);
     && EndsWithin(x[..c.left], y[..c.right], depth - 1)
     && EndsWithin(x[c.left..], y[c.right..], depth - 1))
  }

  ghost predicate Ends(x: seq<Item>, y: seq<Item>)
  {
    exists n :: EndsWithin(x, y, n)
  }

  /** The cuts of the two runs, halving the longer one each time, never leave two single items in the wrong order. */
  predicate CutsApart(x: seq<Item>, y: seq<Item>)
    decreases |x| + |y|
  {
    if x == [] || y == [] then true
    else if |x| + |y| == 2 then x[0].key <= y[0].key
    else
      var c := CutOf(x, y);
      CutsApart(x[..c.left], y[..c.right]) && CutsApart(x[c.left..], y[c.right..])
  }

  lemma {:induction false} DeeperEnds(x: seq<Item>, y: seq<Item>, n: nat, m: nat)
    requires EndsWithin(x, y, n) && n <= m
    ensures EndsWithin(x, y, m)
    decreases n
  {
    if x != [] && y != [] {
      var c := CutOf(x, y);
      DeeperEnds(x[..c.left], y[..c.right], n - 1, m - 1);
      DeeperEnds(x[c.left..], y[c.right..], n - 1, m - 1);
    }
  }

  lemma SingleCut(x: seq<Item>, y: seq<Item>)
    requires |x| == |y| == 1
    ensures x[0].key <= y[0].key ==> CutOf(x, y) == Cut(1, 0)
    ensures x[0].key > y[0].key ==> CutOf(x, y) == Cut(0, 0)
  {
  }

  /** The cut of two runs that come apart leaves two shorter pairs that come apart. */
  lemma ApartParts(x: seq<Item>, y: seq<Item>, c: Cut)
    requires x != [] && y != [] && c == CutOf(x, y) && CutsApart(x, y)
    ensures 0 < c.left + c.right < |x| + |y| && c.left <= |x| && c.right <= |y|
    ensures CutsApart(x[..c.left], y[..c.right]) && CutsApart(x[c.left..], y[c.right..])
  {
    if |x| + |y| == 2 {
      SingleCut(x, y);
    }
  }

  lemma ProperCut(x: seq<Item>, y: seq<Item>, c: Cut)
    requires x != [] && y != [] && c == CutOf(x, y) && |x| + |y| > 2
    ensures 0 < c.left + c.right < |x| + |y|
  {
  }

  lemma {:induction false} ApartEnds(x: seq<Item>, y: seq<Item>) returns (n: nat)
    requires CutsApart(x, y)
    ensures EndsWithin(x, y, n)
    decreases |x| + |y|
  {
    if x == [] || y == [] {
      n := 0;
    } else if |x| + |y| == 2 {
      SingleCut(x, y);
      assert EndsWithin(x[..1], y[..0], 0) && EndsWithin(x[1..], y[0..], 0);
      n := 1;
    } else {
      var c := CutOf(x, y);
      ApartParts(x, y, c);
      hide CutOf, CutsApart;
      var k := ApartEnds(x[..c.left], y[..c.right]);
      var m := ApartEnds(x[c.left..], y[c.right..]);
      DeeperEnds(x[..c.left], y[..c.right], k, k + m);
      DeeperEnds(x[c.left..], y[c.right..], m, k + m);
      n := k + m + 1;
    }
  }

  lemma {:induction false} NotApartRepeats(x: seq<Item>, y: seq<Item>, n: nat)
    requires !CutsApart(x, y)
    ensures !EndsWithin(x, y, n)
    decreases n
  {
    if n > 0 {
      var c := CutOf(x, y);
      if |x| + |y| == 2 {
        SingleCut(x, y);
        assert x[0..] == x && y[0..] == y;
        NotApartRepeats(x, y, n - 1);
      } else if !CutsApart(x[..c.left], y[..c.right]) {
        NotApartRepeats(x[..c.left], y[..c.right], n - 1);
      } else {
        NotApartRepeats(x[c.left..], y[c.right..], n - 1);
      }
    }
  }

  /** With an empty buffer the calls come to an end exactly when the cuts never leave two single items in the
      wrong order; those would be cut into nothing and the same two items again. */
  lemma EndsIff(x: seq<Item>, y: seq<Item>)
    ensures Ends(x, y) <==> CutsApart(x, y)
  {
    if CutsApart(x, y) {
      var n := ApartEnds(x, y);
    } else {
      forall n
        ensures !EndsWithin(x, y, n)
      {
        NotApartRepeats(x, y, n);
      }
    }
  }

  /** Runs that need no merging are always cut apart. */
  lemma {:induction false} OrderedApart(x: seq<Item>, y: seq<Item>)
    requires AtMost(x, y)
    ensures CutsApart(x, y)
    decreases |x| + |y|
  {
    if x != [] && y != [] && |x| + |y| > 2 {
      var c := CutOf(x, y);
      OrderedApart(x[..c.left], y[..c.right]);
      OrderedApart(x[c.left..], y[c.right..]);
    }
  }

  /** Of the others some are, like [1, 5] and [3], and some are not, like [2] and [1]. */
  lemma ApartAndNot(a: Item, b: Item, c: Item)
    requires a.key < b.key < c.key
    ensures CutsApart([a, c], [b]) && !CutsApart([b], [a])
  {
    var d := CutOf([a, c], [b]);
    assert d == Cut(1, 1);
    assert [a, c][..1] == [a] && [b][..1] == [b] && [a, c][1..] == [c] && [b][1..] == [];
  }
}
