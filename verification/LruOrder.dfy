// Over any trace an LRU cache lists its keys by their last use, the use being a put or a get that hits.

module LruOrder {
  import opened Wrappers
  import opened LruLists

  predicate Listed<K(==), V>(s: Recency<K, V>, k: K) {
    exists i :: 0 <= i < |s| && s[i].0 == k
  }

  /** `op` uses `k` when the cache lists `s`: it puts it, or gets it and hits. */
  predicate Uses<K(==), V>(s: Recency<K, V>, op: Op<K, V>, k: K) {
    op.key == k && (op.Put? || (op.Get? && Listed(s, k)))
  }

  /** The place in the trace of the last operation that uses `k`, or -1. */
  function LastUse<K(==), V>(capacity: nat, ops: seq<Op<K, V>>, k: K): int {
    if ops == [] then -1
    else
      var n := |ops| - 1;
      if Uses(Run(capacity, ops[..n]), ops[n], k) then n else LastUse(capacity, ops[..n], k)
  }

  /** What the last put of `k` in the trace has stored. */
  function LastPut<K(==), V>(ops: seq<Op<K, V>>, k: K): Option<V> {
    if ops == [] then None
    else
      var op := ops[|ops| - 1];
      if op.Put? && op.key == k then Some(op.value) else LastPut(ops[..|ops| - 1], k)
  }

  lemma {:induction false} LastUseIs<K, V>(c: nat, ops: seq<Op<K, V>>, k: K)
    ensures var u := LastUse(c, ops, k);
      && -1 <= u < |ops|
      && (u >= 0 ==> Uses(Run(c, ops[..u]), ops[u], k))
      && forall j :: u < j < |ops| ==> !Uses(Run(c, ops[..j]), ops[j], k)
  {
    hide Run, Uses;
    if ops != [] {
      var n := |ops| - 1;
      var before := ops[..n];
      LastUseIs(c, before, k);
      assert forall j :: 0 <= j < n ==> before[..j] == ops[..j];
    }
  }

  /** Every listed key has been used, and each one later than those behind it. */
  ghost predicate InUseOrder<K, V>(c: nat, ops: seq<Op<K, V>>, s: Recency<K, V>) {
    && (forall a :: 0 <= a < |s| ==> LastUse(c, ops, s[a].0) >= 0)
    && forall a, b :: 0 <= a < b < |s| ==> LastUse(c, ops, s[a].0) > LastUse(c, ops, s[b].0)
  }

  /** The list without a key, by places. */
  lemma Others<K, V>(s: Recency<K, V>, k: K) returns (at: nat)
    requires Distinct(s)
    ensures at <= |s|
    ensures at < |s| ==> s[at].0 == k && Without(s, k) == s[..at] + s[at + 1..]
    ensures at == |s| ==> !Listed(s, k) && Without(s, k) == s
    ensures forall e :: e in Without(s, k) ==> e.0 != k && e in s
  {
    if Listed(s, k) {
      at :| at < |s| && s[at].0 == k;
      LookupAt(s, at);
    } else {
      at := |s|;
      NoneWithout(s, k);
    }
    forall e | e in Without(s, k)
      ensures e.0 != k && e in s
    {
      WithoutMember(s, k, e);
    }
  }

  /** One step: the key used gets the newest place in the trace, the others keep theirs. */
  lemma UseStep<K, V>(c: nat, ops: seq<Op<K, V>>, k: K, x: K)
    requires ops != [] && Uses(Run(c, ops[..|ops| - 1]), ops[|ops| - 1], k)
    ensures LastUse(c, ops, x) == if x == k then |ops| - 1 else LastUse(c, ops[..|ops| - 1], x)
  {
  }

  lemma LessOne<K, V>(c: nat, ops: seq<Op<K, V>>, s: Recency<K, V>, at: nat)
    requires InUseOrder(c, ops, s) && at < |s|
    ensures InUseOrder(c, ops, s[..at] + s[at + 1..])
  {
    hide LastUse;
    var w := s[..at] + s[at + 1..];
    assert forall a :: 0 <= a < |w| ==> w[a] == s[if a < at then a else a + 1];
  }

  lemma OneMore<K, V>(c: nat, ops: seq<Op<K, V>>, w: Recency<K, V>, k: K, v: V)
    requires ops != [] && Uses(Run(c, ops[..|ops| - 1]), ops[|ops| - 1], k)
    requires InUseOrder(c, ops[..|ops| - 1], w) && forall e :: e in w ==> e.0 != k
    ensures InUseOrder(c, ops, [(k, v)] + w)
  {
    var before := ops[..|ops| - 1];
    UseStep(c, ops, k, k);
    hide Run, Uses;
    forall a | 0 <= a < |w|
      ensures LastUse(c, ops, w[a].0) == LastUse(c, before, w[a].0) < |before|
    {
      assert w[a] in w;
      UseStep(c, ops, k, w[a].0);
      LastUseIs(c, before, w[a].0);
    }
    hide LastUse;
  }

  lemma FrontOrder<K, V>(c: nat, ops: seq<Op<K, V>>, s: Recency<K, V>, k: K, v: V)
    requires ops != [] && s == Run(c, ops[..|ops| - 1]) && Uses(s, ops[|ops| - 1], k) && Distinct(s)
    requires InUseOrder(c, ops[..|ops| - 1], s)
    ensures InUseOrder(c, ops, [(k, v)] + Without(s, k))
  {
    hide InUseOrder, Run, Uses, Without;
    var at := Others(s, k);
    if at < |s| {
      LessOne(c, ops[..|ops| - 1], s, at);
    }
    OneMore(c, ops, Without(s, k), k, v);
  }

  lemma NoUseStep<K, V>(c: nat, ops: seq<Op<K, V>>, x: K)
    requires ops != [] && !Uses(Run(c, ops[..|ops| - 1]), ops[|ops| - 1], ops[|ops| - 1].key)
    ensures LastUse(c, ops, x) == LastUse(c, ops[..|ops| - 1], x)
  {
  }

  lemma SameOrder<K, V>(c: nat, ops: seq<Op<K, V>>, s: Recency<K, V>)
    requires ops != [] && InUseOrder(c, ops[..|ops| - 1], s) && s == Run(c, ops[..|ops| - 1])
    requires !Uses(s, ops[|ops| - 1], ops[|ops| - 1].key)
    ensures InUseOrder(c, ops, s)
  {
    hide Run, Uses;
    forall a | 0 <= a < |s|
      ensures LastUse(c, ops, s[a].0) == LastUse(c, ops[..|ops| - 1], s[a].0)
    {
      NoUseStep(c, ops, s[a].0);
    }
    hide LastUse;
  }

  lemma RunDistinct<K, V>(c: nat, ops: seq<Op<K, V>>)
    requires c > 0
    ensures Distinct(Run(c, ops)) && |Run(c, ops)| <= c
  {
    Inclusion(c, c, ops);
  }

  /** What a step makes of the list: the key used comes to the front, and what does not fit drops from the back. */
  lemma RunStep<K, V>(c: nat, ops: seq<Op<K, V>>) returns (v: Option<V>)
    requires c > 0 && ops != []
    ensures var s, op := Run(c, ops[..|ops| - 1]), ops[|ops| - 1];
      if Uses(s, op, op.key) then
        && v.Some? && Run(c, ops) == Kept(c, [(op.key, v.value)] + Without(s, op.key))
        && (if op.Put? then v.value == op.value else (op.key, v.value) in s)
      else Run(c, ops) == s
  {
    var s, op := Run(c, ops[..|ops| - 1]), ops[|ops| - 1];
    RunDistinct(c, ops[..|ops| - 1]);
    LookupMember(s, op.key);
    WithoutFacts(s, op.key);
    hide Without, Distinct;
    v := if op.Put? then Some(op.value) else Lookup(s, op.key);
  }

  lemma KeptOrder<K, V>(c: nat, ops: seq<Op<K, V>>, t: Recency<K, V>)
    requires InUseOrder(c, ops, t)
    ensures InUseOrder(c, ops, Kept(c, t))
  {
    hide LastUse;
  }

  /** Over any trace every listed key has been used, and more recently than the keys listed behind it. */
  lemma {:induction false} OrderedByLastUse<K, V>(c: nat, ops: seq<Op<K, V>>)
    requires c > 0
    ensures var s := Run(c, ops);
      && |s| <= c
      && (forall a :: 0 <= a < |s| ==> LastUse(c, ops, s[a].0) >= 0)
      && forall a, b :: 0 <= a < b < |s| ==> LastUse(c, ops, s[a].0) > LastUse(c, ops, s[b].0)
  {
    RunDistinct(c, ops);
    assert InUseOrder(c, ops, Run(c, ops)) by {
      if ops != [] {
        hide LastUse, Run;
        var before, op := ops[..|ops| - 1], ops[|ops| - 1];
        OrderedByLastUse(c, before);
        RunDistinct(c, before);
        var s := Run(c, before);
        var v := RunStep(c, ops);
        assert InUseOrder(c, before, s);
        hide InUseOrder, Kept;
        if Uses(s, op, op.key) {
          FrontOrder(c, ops, s, op.key, v.value);
          KeptOrder(c, ops, [(op.key, v.value)] + Without(s, op.key));
        } else {
          SameOrder(c, ops, s);
        }
      }
    }
    hide LastUse, Run;
  }

  /** What is listed under a key is what its last put has stored. */
  lemma {:induction false} HoldsLastPut<K, V>(c: nat, ops: seq<Op<K, V>>, e: (K, V))
    requires c > 0 && e in Run(c, ops)
    ensures LastPut(ops, e.0) == Some(e.1)
  {
    var before, op := ops[..|ops| - 1], ops[|ops| - 1];
    RunDistinct(c, before);
    var s := Run(c, before);
    var v := RunStep(c, ops);
    var at := Others(s, op.key);
    hide Without, Run, Distinct;
    if e in s {
      HoldsLastPut(c, before, e);
    }
    if Uses(s, op, op.key) {
      assert e == (op.key, v.value) || e in Without(s, op.key);
    }
  }

  lemma ListedAt<K, V>(s: Recency<K, V>, a: nat)
    requires a < |s|
    ensures Listed(s, s[a].0)
  {
  }

  /** A key listed before is listed after a use of another one, unless it stood last in a full list of other keys. */
  lemma StaysListed<K, V>(c: nat, s: Recency<K, V>, q: K, v: V, at: nat, p: nat)
    requires at <= |s| <= c && p < |s| && p != at && (at == |s| && p == c - 1 ==> false)
    ensures Listed(Kept(c, [(q, v)] + s[..at] + (if at < |s| then s[at + 1..] else [])), s[p].0)
  {
    var r := Kept(c, [(q, v)] + s[..at] + (if at < |s| then s[at + 1..] else []));
    var a := if p < at then p + 1 else p;
    assert r[a] == s[p];
    hide Listed, Kept;
    ListedAt(r, a);
  }

  lemma LastDropped<K, V>(c: nat, s: Recency<K, V>, e: (K, V))
    requires c > 0 && |s| == c
    ensures Kept(c, [e] + s) == [e] + s[..c - 1]
  {
  }

  lemma PlaceOf<K, V>(s: Recency<K, V>, k: K) returns (p: nat)
    requires Listed(s, k)
    ensures p < |s| && s[p].0 == k
  {
    p :| p < |s| && s[p].0 == k;
  }

  /** A key leaves the list only from the last place, when a new key comes into a full list. */
  lemma Displaced<K, V>(c: nat, s: Recency<K, V>, q: K, v: V, k: K)
    requires c > 0 && Distinct(s) && |s| <= c && Listed(s, k) && k != q
    requires !Listed(Kept(c, [(q, v)] + Without(s, q)), k)
    ensures |s| == c && s[c - 1].0 == k && !Listed(s, q)
    ensures Kept(c, [(q, v)] + Without(s, q)) == [(q, v)] + s[..c - 1]
  {
    hide *;
    var at := Others(s, q);
    var p := PlaceOf(s, k);
    if at < |s| {
      assert [(q, v)] + s[..at] + s[at + 1..] == [(q, v)] + Without(s, q);
      StaysListed(c, s, q, v, at, p);
    } else {
      assert [(q, v)] + s[..at] + [] == [(q, v)] + Without(s, q);
      if p != c - 1 {
        StaysListed(c, s, q, v, at, p);
      }
      LastDropped(c, s, (q, v));
    }
  }

  lemma StaysFull<K, V>(c: nat, s: Recency<K, V>, q: K, v: V)
    requires c > 0 && Distinct(s) && |s| == c
    ensures |Kept(c, [(q, v)] + Without(s, q))| == c
  {
    WithoutFacts(s, q);
  }

  /** The use of `q` in the last step: the keys listed now have been used later than `k`, if the others had been
      before. */
  lemma OlderStill<K, V>(c: nat, ops: seq<Op<K, V>>, r: Recency<K, V>, q: K, k: K)
    requires ops != [] && Uses(Run(c, ops[..|ops| - 1]), ops[|ops| - 1], q) && k != q
    requires forall a :: 0 <= a < |r| && r[a].0 != q ==>
               LastUse(c, ops[..|ops| - 1], r[a].0) > LastUse(c, ops[..|ops| - 1], k)
    ensures forall a :: 0 <= a < |r| ==> LastUse(c, ops, r[a].0) > LastUse(c, ops, k)
  {
    hide Run, Uses;
    LastUseIs(c, ops[..|ops| - 1], k);
    UseStep(c, ops, q, k);
    forall a | 0 <= a < |r|
      ensures LastUse(c, ops, r[a].0) > LastUse(c, ops, k)
    {
      UseStep(c, ops, q, r[a].0);
    }
  }

  /** The members of the new list, apart from the key used, come from the old one. */
  lemma FromOld<K, V>(c: nat, s: Recency<K, V>, q: K, v: V, a: nat)
    requires Distinct(s) && a < |Kept(c, [(q, v)] + Without(s, q))|
    ensures var e := Kept(c, [(q, v)] + Without(s, q))[a]; e.0 == q || e in s
  {
    var at := Others(s, q);
    hide Without;
    if a > 0 {
      assert Kept(c, [(q, v)] + Without(s, q))[a] == Without(s, q)[a - 1];
    }
  }

  lemma {:induction false} OlderAfterUse<K, V>(c: nat, ops: seq<Op<K, V>>, k: K, v: V)
    requires c > 0 && ops != [] && LastUse(c, ops, k) >= 0 && !Listed(Run(c, ops), k)
    requires var s, op := Run(c, ops[..|ops| - 1]), ops[|ops| - 1];
             Uses(s, op, op.key) && Run(c, ops) == Kept(c, [(op.key, v)] + Without(s, op.key))
    ensures |Run(c, ops)| == c
    ensures forall a :: 0 <= a < c ==> LastUse(c, ops, Run(c, ops)[a].0) > LastUse(c, ops, k)
    decreases |ops|, 0
  {
    var before, op := ops[..|ops| - 1], ops[|ops| - 1];
    var s, r, q := Run(c, before), Run(c, ops), op.key;
    assert k != q by {
      assert r[0] == (q, v);
    }
    UseStep(c, ops, q, k);
    RunDistinct(c, before);
    hide Run, Uses, LastUse, Without, Distinct;
    if Listed(s, k) {
      Displaced(c, s, q, v, k);
      OrderedByLastUse(c, before);
      assert r == [(q, v)] + s[..c - 1];
      hide Listed, Kept;
      OlderStill(c, ops, r, q, k);
    } else {
      UnlistedIsOlder(c, before, k);
      StaysFull(c, s, q, v);
      hide Listed;
      forall a | 0 <= a < |r| && r[a].0 != q
        ensures LastUse(c, before, r[a].0) > LastUse(c, before, k)
      {
        FromOld(c, s, q, v, a);
        var b :| 0 <= b < |s| && s[b] == r[a];
      }
      hide Kept;
      OlderStill(c, ops, r, q, k);
    }
  }

  /** A key that has been used and is no longer listed was last used before all those that are, and the list is full. */
  lemma {:induction false} UnlistedIsOlder<K, V>(c: nat, ops: seq<Op<K, V>>, k: K)
    requires c > 0 && LastUse(c, ops, k) >= 0 && !Listed(Run(c, ops), k)
    ensures |Run(c, ops)| == c
    ensures forall a :: 0 <= a < c ==> LastUse(c, ops, Run(c, ops)[a].0) > LastUse(c, ops, k)
    decreases |ops|, 1
  {
    assert ops != [];
    var s, op := Run(c, ops[..|ops| - 1]), ops[|ops| - 1];
    var v := RunStep(c, ops);
    hide Run, Listed, LastUse, Without, Kept, Uses;
    if Uses(s, op, op.key) {
      OlderAfterUse(c, ops, k, v.value);
    } else {
      NoUseStep(c, ops, k);
      UnlistedIsOlder(c, ops[..|ops| - 1], k);
      forall a | 0 <= a < c
        ensures LastUse(c, ops, s[a].0) > LastUse(c, ops, k)
      {
        NoUseStep(c, ops, s[a].0);
      }
    }
  }

  /** An eviction takes the key whose last use is the oldest of all those listed. */
  lemma EvictsLeastRecentlyUsed<K, V>(c: nat, ops: seq<Op<K, V>>, k: K, v: V, x: K)
    requires c > 0 && Listed(Run(c, ops), x) && !Listed(Run(c, ops + [Put(k, v)]), x)
    ensures var s := Run(c, ops);
      && |s| == c && !Listed(s, k)
      && forall a :: 0 <= a < c && s[a].0 != x ==> LastUse(c, ops, s[a].0) > LastUse(c, ops, x)
  {
    AfterNewPut(c, ops, k, v);
    RunDistinct(c, ops);
    OrderedByLastUse(c, ops);
    hide Run, LastUse, Without, Kept, Distinct, Listed;
    Displaced(c, Run(c, ops), k, v, x);
  }

  lemma AfterNewPut<K, V>(c: nat, ops: seq<Op<K, V>>, k: K, v: V)
    requires c > 0
    ensures Run(c, ops + [Put(k, v)]) == Kept(c, [(k, v)] + Without(Run(c, ops), k))
    ensures Listed(Run(c, ops + [Put(k, v)]), k)
  {
    var all := ops + [Put(k, v)];
    assert all[..|all| - 1] == ops;
    assert Run(c, all)[0] == (k, v);
  }

  /** The keys used in the trace behind place `i`. */
  function UsedAfter<K(==), V>(capacity: nat, ops: seq<Op<K, V>>, i: int): set<K>
    requires i >= -1
  {
    set j | i < j < |ops| && Uses(Run(capacity, ops[..j]), ops[j], ops[j].key) :: ops[j].key
  }

  lemma InUsedAfter<K, V>(c: nat, ops: seq<Op<K, V>>, i: int, x: K)
    requires i >= -1
    ensures x in UsedAfter(c, ops, i) <==> LastUse(c, ops, x) > i
  {
    LastUseIs(c, ops, x);
    hide Run, LastUse;
  }

  ghost function KeySet<K, V>(s: Recency<K, V>): set<K> {
    set e | e in s :: e.0
  }

  lemma {:induction false} KeySetSize<K, V>(s: Recency<K, V>)
    requires Distinct(s)
    ensures |KeySet(s)| == |s|
  {
    if s == [] {
      assert KeySet(s) == {};
    } else {
      OthersDiffer(s);
      KeySetSize(s[1..]);
      assert KeySet(s) == {s[0].0} + KeySet(s[1..]);
    }
  }

  /** A key is listed if and only if it has been used and fewer than `capacity` other keys have been used since. */
  lemma ListedIffRecent<K(!new), V>(c: nat, ops: seq<Op<K, V>>, k: K)
    requires c > 0
    ensures var u := LastUse(c, ops, k);
      u >= -1 && (Listed(Run(c, ops), k) <==> u >= 0 && |UsedAfter(c, ops, u)| < c)
  {
    var s, u := Run(c, ops), LastUse(c, ops, k);
    LastUseIs(c, ops, k);
    RunDistinct(c, ops);
    OrderedByLastUse(c, ops);
    hide Run, LastUse, Uses, UsedAfter;
    if Listed(s, k) {
      var p := PlaceOf(s, k);
      FirstDistinct(s, p);
      KeySetSize(s[..p]);
      assert UsedAfter(c, ops, u) == KeySet(s[..p]) by { UsedInFront(c, ops, p); }
    } else if u >= 0 {
      UnlistedIsOlder(c, ops, k);
      KeySetSize(s);
      forall x | x in KeySet(s)
        ensures x in UsedAfter(c, ops, u)
      {
        InUsedAfter(c, ops, u, x);
      }
      SubsetSize(KeySet(s), UsedAfter(c, ops, u));
    }
  }

  lemma FirstDistinct<K, V>(s: Recency<K, V>, p: nat)
    requires Distinct(s) && p <= |s|
    ensures Distinct(s[..p])
  {
  }

  lemma SubsetSize<T>(a: set<T>, b: set<T>)
    requires a <= b
    ensures |a| <= |b|
  {
    assert b == a + (b - a);
  }

  lemma InKeySet<K, V>(s: Recency<K, V>, k: K)
    ensures k in KeySet(s) <==> Listed(s, k)
  {
    if Listed(s, k) {
      var p := PlaceOf(s, k);
      assert s[p] in s;
    }
  }

  lemma InFront<K, V>(s: Recency<K, V>, p: nat, k: K)
    requires p <= |s|
    ensures Listed(s[..p], k) <==> exists a :: 0 <= a < p && s[a].0 == k
  {
    assert forall a :: 0 <= a < p ==> s[..p][a] == s[a];
  }

  lemma UsedLater<K, V>(c: nat, ops: seq<Op<K, V>>, p: nat, x: K)
    requires c > 0 && p < |Run(c, ops)|
    ensures var s := Run(c, ops);
      LastUse(c, ops, x) > LastUse(c, ops, s[p].0) >= 0 <==> exists a :: 0 <= a < p && s[a].0 == x
  {
    var s := Run(c, ops);
    OrderedByLastUse(c, ops);
    hide Run, LastUse, Uses;
    if LastUse(c, ops, x) > LastUse(c, ops, s[p].0) {
      if !Listed(s, x) {
        UnlistedIsOlder(c, ops, x);
      }
      var a := PlaceOf(s, x);
    }
  }

  lemma InBoth<K, V>(c: nat, ops: seq<Op<K, V>>, p: nat, x: K)
    requires c > 0 && p < |Run(c, ops)| && LastUse(c, ops, Run(c, ops)[p].0) >= 0
    ensures x in UsedAfter(c, ops, LastUse(c, ops, Run(c, ops)[p].0)) <==> x in KeySet(Run(c, ops)[..p])
  {
    hide *;
    InUsedAfter(c, ops, LastUse(c, ops, Run(c, ops)[p].0), x);
    UsedLater(c, ops, p, x);
    InFront(Run(c, ops), p, x);
    InKeySet(Run(c, ops)[..p], x);
  }

  /** The keys used since the last use of a listed key are those listed before it. */
  lemma UsedInFront<K(!new), V>(c: nat, ops: seq<Op<K, V>>, p: nat)
    requires c > 0 && p < |Run(c, ops)|
    ensures var s := Run(c, ops);
      LastUse(c, ops, s[p].0) >= 0 && UsedAfter(c, ops, LastUse(c, ops, s[p].0)) == KeySet(s[..p])
  {
    OrderedByLastUse(c, ops);
    hide Run, LastUse, UsedAfter, KeySet, Uses;
    var s := Run(c, ops);
    var used, front := UsedAfter(c, ops, LastUse(c, ops, s[p].0)), KeySet(s[..p]);
    forall x
      ensures x in used <==> x in front
    {
      InBoth(c, ops, p, x);
    }
    assert used == front;
  }
}
