// The recency list of dbase/cache/lru_cache.h as a plain sequence, and what a larger capacity changes.

module LruLists {
  import opened Wrappers

  /** Most recently used first. */
  type Recency<K, V> = seq<(K, V)>

  function Lookup<K(==), V>(s: Recency<K, V>, k: K): Option<V> {
    if s == [] then None else if s[0].0 == k then Some(s[0].1) else Lookup(s[1..], k)
  }

  function Without<K(==), V>(s: Recency<K, V>, k: K): Recency<K, V> {
    if s == [] then [] else if s[0].0 == k then Without(s[1..], k) else [s[0]] + Without(s[1..], k)
  }

  function AfterGet<K(==), V>(s: Recency<K, V>, k: K): Recency<K, V> {
    match Lookup(s, k)
    case None => s
    case Some(v) => [(k, v)] + Without(s, k)
  }

  /** What is left after eviction from the back. */
  function Kept<K, V>(capacity: nat, t: Recency<K, V>): Recency<K, V> {
    if |t| > capacity then t[..capacity] else t
  }

  function AfterPut<K(==), V>(capacity: nat, s: Recency<K, V>, k: K, v: V): Recency<K, V> {
    Kept(capacity, [(k, v)] + Without(s, k))
  }

  datatype Op<K, V> = Put(key: K, value: V) | Get(key: K) | Peek(key: K)

  function Apply<K(==), V>(capacity: nat, s: Recency<K, V>, op: Op<K, V>): Recency<K, V> {
    match op
    case Put(k, v) => AfterPut(capacity, s, k, v)
    case Get(k) => AfterGet(s, k)
    case Peek(_) => s
  }

  /** The list after a trace of operations on an empty cache. */
  function Run<K(==), V>(capacity: nat, ops: seq<Op<K, V>>): Recency<K, V> {
    if ops == [] then [] else Apply(capacity, Run(capacity, ops[..|ops| - 1]), ops[|ops| - 1])
  }

  ghost predicate Distinct<K, V>(s: Recency<K, V>) {
    forall i, j :: 0 <= i < j < |s| ==> s[i].0 != s[j].0
  }

  /** `s` is `t` with some elements left out. */
  ghost predicate Sub<K, V>(s: Recency<K, V>, t: Recency<K, V>) {
    s == [] || (t != [] && if s[0] == t[0] then Sub(s[1..], t[1..]) else Sub(s, t[1..]))
  }

  lemma {:induction false} SubWithout<K, V>(s: Recency<K, V>, t: Recency<K, V>, k: K)
    requires Sub(s, t)
    ensures Sub(Without(s, k), Without(t, k))
    decreases |t|
  {
    if s != [] {
      if s[0] == t[0] {
        SubWithout(s[1..], t[1..], k);
        SubFront(Without(s[1..], k), Without(t[1..], k), s[0]);
      } else {
        SubWithout(s, t[1..], k);
        if t[0].0 != k {
          SubMore(Without(s, k), Without(t[1..], k), t[0]);
        }
      }
    }
  }

  lemma {:induction false} SubTail<K, V>(s: Recency<K, V>, t: Recency<K, V>)
    requires Sub(s, t) && s != []
    ensures Sub(s[1..], t)
    decreases |t|, 0
  {
    if s[0] == t[0] {
      if |s| > 1 {
        assert s[1..][1..] == s[2..];
        SubMore(s[1..], t[1..], t[0]);
      }
    } else {
      SubTail(s, t[1..]);
      SubMore(s[1..], t[1..], t[0]);
    }
  }

  /** One more element in front of the longer list. */
  lemma {:induction false} SubMore<K, V>(s: Recency<K, V>, t: Recency<K, V>, e: (K, V))
    requires Sub(s, t)
    ensures Sub(s, [e] + t)
    decreases |t|, 1
  {
    assert ([e] + t)[1..] == t;
    if s != [] && s[0] == e {
      SubTail(s, t);
    }
  }

  lemma SubFront<K, V>(s: Recency<K, V>, t: Recency<K, V>, e: (K, V))
    requires Sub(s, t)
    ensures Sub([e] + s, [e] + t)
  {
    assert ([e] + t)[1..] == t && ([e] + s)[1..] == s;
  }

  lemma {:induction false} SubDropLast<K, V>(s: Recency<K, V>, t: Recency<K, V>)
    requires Sub(s, t) && s != []
    ensures Sub(s[..|s| - 1], t)
    decreases |t|
  {
    if |s| > 1 {
      if s[0] == t[0] {
        SubDropLast(s[1..], t[1..]);
        assert s[..|s| - 1][1..] == s[1..][..|s| - 2];
      } else {
        SubDropLast(s, t[1..]);
      }
    }
  }

  /** The longer list loses its last element: the shorter one does not notice unless it ends with the same. */
  lemma {:induction false} SubDropLarge<K, V>(s: Recency<K, V>, t: Recency<K, V>)
    requires Sub(s, t) && t != []
    ensures s == [] || s[|s| - 1] != t[|t| - 1] ==> Sub(s, t[..|t| - 1])
    ensures s != [] && s[|s| - 1] == t[|t| - 1] ==> Sub(s[..|s| - 1], t[..|t| - 1])
    decreases |t|
  {
    var t' := t[..|t| - 1];
    if s != [] && |t| > 1 {
      assert t'[1..] == t[1..][..|t| - 2];
      if s[0] == t[0] {
        SubDropLarge(s[1..], t[1..]);
        if |s| > 1 {
          assert s[..|s| - 1][1..] == s[1..][..|s| - 2];
        }
      } else {
        SubDropLarge(s, t[1..]);
        if |s| > 1 {
          assert s[..|s| - 1][0] == s[0];
        }
      }
    }
  }

  lemma {:induction false} LookupMember<K, V>(s: Recency<K, V>, k: K)
    ensures Lookup(s, k).Some? ==> (k, Lookup(s, k).value) in s
    ensures Lookup(s, k).None? ==> forall i :: 0 <= i < |s| ==> s[i].0 != k
  {
    if s != [] {
      LookupMember(s[1..], k);
    }
  }

  lemma {:induction false} LookupUnique<K, V>(s: Recency<K, V>, k: K, v: V)
    requires Distinct(s) && (k, v) in s
    ensures Lookup(s, k) == Some(v)
  {
    if s[0] != (k, v) {
      var i :| 0 <= i < |s| && s[i] == (k, v);
      assert s[1..][i - 1] == (k, v);
      LookupUnique(s[1..], k, v);
    }
  }

  lemma {:induction false} SubMember<K, V>(s: Recency<K, V>, t: Recency<K, V>, e: (K, V))
    requires Sub(s, t) && e in s
    ensures e in t
    decreases |t|
  {
    if s[0] == t[0] {
      if s[0] != e {
        assert e in s[1..];
        SubMember(s[1..], t[1..], e);
      }
    } else {
      SubMember(s, t[1..], e);
    }
  }

  /** A hit in the shorter list is a hit in the longer one, with the same value. */
  lemma SubLookup<K, V>(s: Recency<K, V>, t: Recency<K, V>, k: K)
    requires Sub(s, t) && Distinct(t)
    ensures Lookup(s, k).Some? ==> Lookup(t, k) == Lookup(s, k)
  {
    LookupMember(s, k);
    if Lookup(s, k).Some? {
      SubMember(s, t, (k, Lookup(s, k).value));
      LookupUnique(t, k, Lookup(s, k).value);
    }
  }

  lemma {:induction false} WithoutMember<K, V>(s: Recency<K, V>, k: K, e: (K, V))
    ensures e in Without(s, k) <==> e in s && e.0 != k
  {
    if s != [] {
      WithoutMember(s[1..], k, e);
      assert e in s <==> e == s[0] || e in s[1..];
    }
  }

  lemma OthersDiffer<K, V>(s: Recency<K, V>)
    requires Distinct(s) && s != []
    ensures forall e :: e in s[1..] ==> e.0 != s[0].0
    ensures Distinct(s[1..])
  {
  }

  lemma {:induction false} WithoutFacts<K, V>(s: Recency<K, V>, k: K)
    requires Distinct(s)
    ensures Distinct(Without(s, k)) && |Without(s, k)| == |s| - (if Lookup(s, k).Some? then 1 else 0)
    ensures Lookup(s, k).None? ==> Without(s, k) == s
    ensures forall e :: e in Without(s, k) ==> e.0 != k
  {
    if s != [] {
      OthersDiffer(s);
      WithoutFacts(s[1..], k);
      LookupMember(s[1..], k);
      hide Distinct;
      DistinctWithout(s, k);
    }
    forall e | e in Without(s, k)
      ensures e.0 != k
    {
      WithoutMember(s, k, e);
    }
  }

  lemma DistinctWithout<K, V>(s: Recency<K, V>, k: K)
    requires s != [] && Distinct(s) && Distinct(Without(s[1..], k))
    ensures Distinct(Without(s, k))
  {
    OthersDiffer(s);
    var w := Without(s[1..], k);
    forall i | 0 <= i < |w|
      ensures w[i].0 != s[0].0
    {
      WithoutMember(s[1..], k, w[i]);
    }
  }

  lemma DistinctFront<K, V>(e: (K, V), w: Recency<K, V>)
    requires Distinct(w) && forall x :: x in w ==> x.0 != e.0
    ensures Distinct([e] + w)
  {
  }

  lemma {:induction false} LookupAt<K, V>(p: Recency<K, V>, i: nat)
    requires Distinct(p) && i < |p|
    ensures Lookup(p, p[i].0) == Some(p[i].1)
    ensures Without(p, p[i].0) == p[..i] + p[i + 1..]
  {
    if i == 0 {
      OthersDiffer(p);
      NoneWithout(p[1..], p[0].0);
    } else {
      OthersDiffer(p);
      var q, k := p[1..], p[i].0;
      assert q[i - 1] == p[i] && q[i - 1] in q;
      LookupAt(q, i - 1);
      assert [p[0]] + q[..i - 1] == p[..i] && q[i..] == p[i + 1..];
      hide Distinct;
      assert Without(p, k) == [p[0]] + Without(q, k);
    }
  }

  lemma {:induction false} NoneWithout<K, V>(p: Recency<K, V>, k: K)
    requires forall e :: e in p ==> e.0 != k
    ensures Without(p, k) == p && Lookup(p, k) == None
  {
    if p != [] {
      NoneWithout(p[1..], k);
    }
  }

  /** The invariant of two caches that see the same trace: the smaller one lists a part of what the larger one lists,
      and all of it as long as it has never been full. */
  ghost predicate Nested<K, V>(capacity: nat, s: Recency<K, V>, t: Recency<K, V>) {
    Sub(s, t) && Distinct(s) && Distinct(t) && |s| <= capacity && (|s| < capacity ==> s == t)
  }

  lemma PutDistinct<K, V>(capacity: nat, s: Recency<K, V>, k: K, v: V)
    requires Distinct(s) && |s| <= capacity
    ensures Distinct(AfterPut(capacity, s, k, v)) && |AfterPut(capacity, s, k, v)| <= capacity
    ensures Distinct(AfterGet(s, k)) && |AfterGet(s, k)| == |s|
  {
    WithoutFacts(s, k);
    hide Without;
    DistinctFront((k, v), Without(s, k));
    if Lookup(s, k).Some? {
      DistinctFront((k, Lookup(s, k).value), Without(s, k));
    }
  }

  /** Evicting from both. */
  lemma NestedEvict<K, V>(c: nat, c': nat, s: Recency<K, V>, t: Recency<K, V>)
    requires Sub(s, t) && 0 < c <= c' && |s| <= c + 1 && |t| <= c' + 1
    requires |s| < c ==> s == t
    requires |t| > c' ==> |s| > c
    ensures Sub(Kept(c, s), Kept(c', t)) && (|Kept(c, s)| < c ==> Kept(c, s) == Kept(c', t))
  {
    hide Sub;
    if |t| > c' {
      SubDropLarge(s, t);
      if s[|s| - 1] != t[|t| - 1] {
        SubDropLast(s, t[..|t| - 1]);
      }
    } else if |s| > c {
      SubDropLast(s, t);
    }
  }

  lemma NestedPut<K, V>(c: nat, c': nat, s: Recency<K, V>, t: Recency<K, V>, k: K, v: V)
    requires 0 < c <= c' && Nested(c, s, t) && |t| <= c'
    ensures Nested(c, AfterPut(c, s, k, v), AfterPut(c', t, k, v))
  {
    PutDistinct(c, s, k, v);
    PutDistinct(c', t, k, v);
    WithoutFacts(s, k);
    WithoutFacts(t, k);
    SubWithout(s, t, k);
    SubLookup(s, t, k);
    hide Without, Lookup, Sub, Distinct;
    SubFront(Without(s, k), Without(t, k), (k, v));
    NestedEvict(c, c', [(k, v)] + Without(s, k), [(k, v)] + Without(t, k));
  }

  lemma NestedGet<K, V>(c: nat, s: Recency<K, V>, t: Recency<K, V>, k: K)
    requires Nested(c, s, t)
    ensures Nested(c, AfterGet(s, k), AfterGet(t, k))
  {
    if s != [] {
      PutDistinct(c, s, k, s[0].1);
    }
    if t != [] {
      PutDistinct(|t|, t, k, t[0].1);
    }
    WithoutFacts(s, k);
    SubWithout(s, t, k);
    SubLookup(s, t, k);
    hide Without;
    match Lookup(t, k)
    case None =>
    case Some(v) =>
      SubFront(Without(s, k), Without(t, k), (k, v));
      if Lookup(s, k).None? {
        SubMore(s, Without(t, k), (k, v));
      }
  }

  /** Over any trace of puts, gets and peeks the smaller cache lists, in the same order and with the same values, a
      part of what the larger one lists. */
  lemma {:induction false} Inclusion<K, V>(c: nat, c': nat, ops: seq<Op<K, V>>)
    requires 0 < c <= c'
    ensures Nested(c, Run(c, ops), Run(c', ops)) && |Run(c', ops)| <= c'
  {
    if ops != [] {
      var before, op := ops[..|ops| - 1], ops[|ops| - 1];
      Inclusion(c, c', before);
      var s, t := Run(c, before), Run(c', before);
      hide Run, Nested, AfterPut, AfterGet;
      NestedDistinct(c, s, t);
      match op
      case Put(k, v) =>
        NestedPut(c, c', s, t, k, v);
        PutDistinct(c', t, k, v);
      case Get(k) =>
        NestedGet(c, s, t, k);
        GetSize(t, k);
      case Peek(_) =>
    }
  }

  lemma NestedDistinct<K, V>(c: nat, s: Recency<K, V>, t: Recency<K, V>)
    requires Nested(c, s, t)
    ensures Distinct(t) && Sub(s, t)
  {
  }

  lemma GetSize<K, V>(t: Recency<K, V>, k: K)
    requires Distinct(t)
    ensures |AfterGet(t, k)| == |t|
  {
    WithoutFacts(t, k);
  }

  /** A hit in the smaller cache is a hit in the larger one. */
  lemma HitInLarger<K, V>(c: nat, c': nat, ops: seq<Op<K, V>>, k: K)
    requires 0 < c <= c'
    ensures Lookup(Run(c, ops), k).Some? ==> Lookup(Run(c', ops), k) == Lookup(Run(c, ops), k)
  {
    Inclusion(c, c', ops);
    SubLookup(Run(c, ops), Run(c', ops), k);
  }
}
