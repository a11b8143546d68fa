// The list and index of dbase/cache/lru_cache.h.

module LruCache {
  import opened Wrappers
  import opened LruLists

  /** A list node; the index refers to nodes. */
  class Node<K, V> {
    const key: K
    var value: V

    constructor (key: K, value: V)
      ensures this.key == key && this.value == value
    {
      this.key, this.value := key, value;
    }
  }

  ghost function Pairs<K, V>(s: seq<Node<K, V>>): (p: Recency<K, V>)
    reads s
    ensures |p| == |s| && forall i :: 0 <= i < |s| ==> p[i] == (s[i].key, s[i].value)
  {
    seq(|s|, i requires 0 <= i < |s| reads s => (s[i].key, s[i].value))
  }

  /** The index maps exactly the keys of the listed nodes, each to its node; no key is listed twice. */
  ghost predicate Indexed<K, V>(items: seq<Node<K, V>>, index: map<K, Node<K, V>>) {
    && (forall i :: 0 <= i < |items| ==> items[i].key in index && index[items[i].key] == items[i])
    && (forall i, j :: 0 <= i < j < |items| ==> items[i].key != items[j].key)
    && (forall k :: k in index ==> index[k].key == k && index[k] in items)
    && |index| == |items|
  }

  /** The place of a node in the list. */
  lemma Position<K, V>(items: seq<Node<K, V>>, index: map<K, Node<K, V>>, k: K) returns (i: nat)
    requires Indexed(items, index) && k in index
    ensures i < |items| && items[i] == index[k] && items[i].key == k
  {
    i :| i < |items| && items[i] == index[k];
  }

  function Spliced<T>(s: seq<T>, i: nat): seq<T>
    requires i < |s|
  {
    [s[i]] + s[..i] + s[i + 1..]
  }

  lemma SplicedMembers<T>(s: seq<T>, i: nat)
    requires i < |s|
    ensures forall x :: x in s <==> x in Spliced(s, i)
    ensures |Spliced(s, i)| == |s|
  {
    assert s == s[..i] + [s[i]] + s[i + 1..];
  }

  lemma SplicedKeys<K, V>(s: seq<Node<K, V>>, i: nat)
    requires i < |s| && forall a, b :: 0 <= a < b < |s| ==> s[a].key != s[b].key
    ensures var t := Spliced(s, i); forall a, b :: 0 <= a < b < |t| ==> t[a].key != t[b].key
  {
    var t := Spliced(s, i);
    forall a, b | 0 <= a < b < |t|
      ensures t[a].key != t[b].key
    {
      var a', b' := if a == 0 then i else if a <= i then a - 1 else a, if b <= i then b - 1 else b;
      assert t[a] == s[a'] && t[b] == s[b'] && a' != b';
    }
  }

  lemma SplicedIndexed<K, V>(items: seq<Node<K, V>>, index: map<K, Node<K, V>>, i: nat)
    requires Indexed(items, index) && i < |items|
    ensures Indexed(Spliced(items, i), index)
  {
    SplicedMembers(items, i);
    SplicedKeys(items, i);
    var t := Spliced(items, i);
    hide Spliced;
    forall j | 0 <= j < |t|
      ensures t[j].key in index && index[t[j].key] == t[j]
    {
      assert t[j] in items;
    }
  }

  /** Moving node i to the front, its value being v by then, is what the list specification says. */
  lemma TouchedPairs<K, V>(p: Recency<K, V>, p': Recency<K, V>, i: nat, v: V)
    requires Distinct(p) && i < |p| && p' == Spliced(p[i := (p[i].0, v)], i)
    ensures p' == [(p[i].0, v)] + Without(p, p[i].0)
    ensures Lookup(p, p[i].0) == Some(p[i].1)
  {
    LookupAt(p, i);
  }

  lemma IndexedDistinct<K, V>(items: seq<Node<K, V>>, index: map<K, Node<K, V>>)
    requires Indexed(items, index)
    ensures Distinct(Pairs(items))
    ensures forall k :: k !in index ==> Lookup(Pairs(items), k) == None && Without(Pairs(items), k) == Pairs(items)
  {
    forall k | k !in index
      ensures Lookup(Pairs(items), k) == None && Without(Pairs(items), k) == Pairs(items)
    {
      NoneWithout(Pairs(items), k);
    }
  }

  lemma AddIndexed<K, V>(items: seq<Node<K, V>>, index: map<K, Node<K, V>>, n: Node<K, V>)
    requires Indexed(items, index) && n.key !in index
    ensures Indexed([n] + items, index[n.key := n])
  {
    var t, m := [n] + items, index[n.key := n];
    forall k | k in m
      ensures m[k].key == k && m[k] in t
    {
      if k != n.key {
        assert m[k] in items;
      }
    }
  }

  lemma DropIndexed<K, V>(items: seq<Node<K, V>>, index: map<K, Node<K, V>>)
    requires Indexed(items, index) && items != []
    ensures Indexed(items[..|items| - 1], index - {items[|items| - 1].key})
  {
    var t, last := items[..|items| - 1], items[|items| - 1];
    var m := index - {last.key};
    assert index == m[last.key := last];
    forall k | k in m
      ensures m[k].key == k && m[k] in t
    {
      var i := Position(items, index, k);
      assert t[i] == m[k];
    }
  }

  class LRUCache<K(==), V> {
    const capacity: nat
    var items: seq<Node<K, V>>
    var index: map<K, Node<K, V>>

    ghost predicate Valid()
      reads this
    {
      capacity > 0 && Indexed(items, index) && |items| <= capacity
    }

    /** The listed keys and values, most recently used first. */
    ghost function Contents(): Recency<K, V>
      reads this, items
    {
      Pairs(items)
    }

    constructor (capacity: nat)
      requires capacity > 0
      ensures Valid() && Contents() == [] && this.capacity == capacity && index == map[]
    {
      this.capacity := capacity;
      items, index := [], map[];
    }

    /** LRUCache(capacity): None stands for the std::invalid_argument it throws. */
    static method Make(capacity: nat) returns (r: Option<LRUCache<K, V>>)
      ensures r.None? <==> capacity == 0
      ensures r.Some? ==> fresh(r.value) && r.value.Valid() && r.value.Contents() == [] && r.value.capacity == capacity
    {
      if capacity == 0 {
        return None;
      }
      var cache := new LRUCache(capacity);
      r := Some(cache);
    }

    /** touch: splices the node to the front unless it is there already. */
    method Touch(node: Node<K, V>, ghost i: nat)
      requires i < |items| && items[i] == node && Indexed(items, index)
      modifies this`items
      ensures items == Spliced(old(items), i) && Indexed(items, index)
    {
      hide Indexed;
      SplicedIndexed(items, index, i);
      OneNode(items, index, i);
      if node != items[0] {
        Unlinked(items, i);
        items := [node] + Unlink(items, node);
      }
    }

    /** get: a hit, found at place `at`, moves to the front and the others keep their order; a miss changes nothing. */
    method GetValue(key: K) returns (r: Option<V>, ghost at: nat)
      requires Valid()
      modifies this`items
      ensures Valid() && r == Lookup(old(Contents()), key) && Contents() == AfterGet(old(Contents()), key)
      ensures r.None? ==> Contents() == old(Contents()) && forall e :: e in old(Contents()) ==> e.0 != key
      ensures r.Some? ==> at < |old(Contents())| && old(Contents())[at] == (key, r.value)
                          && Contents() == [(key, r.value)] + old(Contents())[..at] + old(Contents())[at + 1..]
    {
      hide Indexed, Lookup, Without, Spliced, Distinct;
      IndexedDistinct(items, index);
      ghost var p := Pairs(items);
      if key !in index {
        LookupMember(p, key);
        return None, 0;
      }
      at := Position(items, index, key);
      ghost var s := items;
      Touch(index[key], at);
      SplicedPairs(s, at);
      assert p[at := (p[at].0, p[at].1)] == p;
      TouchedPairs(p, Pairs(items), at, p[at].1);
      LookupAt(p, at);
      SplicedSize(s, at);
      r := Some(index[key].value);
    }

    method Peek(key: K) returns (r: Option<V>)
      requires Valid()
      ensures r == Lookup(Contents(), key)
    {
      hide Indexed, Lookup, Without;
      IndexedDistinct(items, index);
      if key !in index {
        return None;
      }
      ghost var i := Position(items, index, key);
      LookupAt(Pairs(items), i);
      return Some(index[key].value);
    }

    /** putImpl; `evicted` are the pairs the eviction callback is given. */
    method Put(key: K, value: V) returns (evicted: seq<(K, V)>)
      requires Valid()
      modifies this`items, this`index, items
      ensures Valid() && Contents() == AfterPut(capacity, old(Contents()), key, value)
      ensures Contents() + evicted == [(key, value)] + Without(old(Contents()), key)
    {
      hide Indexed, Lookup, Without, Spliced, Distinct;
      IndexedDistinct(items, index);
      ghost var p := Pairs(items);
      if key in index {
        PutPresent(key, value);
        return [];
      }
      var node := new Node(key, value);
      AddIndexed(items, index, node);
      items := [node] + items;
      index := index[node.key := node];
      assert Pairs(items) == [(key, value)] + p;
      evicted := EvictIfNeeded();
    }

    /** The branch of putImpl for a listed key. */
    method PutPresent(key: K, value: V)
      requires Valid() && key in index
      modifies this`items, items
      ensures Valid() && Contents() == AfterPut(capacity, old(Contents()), key, value)
      ensures Contents() == [(key, value)] + Without(old(Contents()), key)
    {
      hide Indexed, Lookup, Without, Spliced, Distinct;
      IndexedDistinct(items, index);
      ghost var p, s := Pairs(items), items;
      ghost var i := Position(items, index, key);
      var node := index[key];
      OneNode(items, index, i);
      node.value := value;
      assert Pairs(items) == p[i := (key, value)];
      Touch(node, i);
      SplicedPairs(s, i);
      assert Pairs(s) == p[i := (p[i].0, value)];
      TouchedPairs(p, Pairs(items), i, value);
      SplicedSize(s, i);
      PresentFits(capacity, p, i, value);
    }

    method EvictIfNeeded() returns (evicted: seq<(K, V)>)
      requires capacity > 0 && Indexed(items, index) && |items| <= capacity + 1
      modifies this`items, this`index
      ensures Valid() && Contents() == Kept(capacity, old(Contents()))
      ensures Contents() + evicted == old(Contents())
    {
      hide Indexed;
      evicted := [];
      IndexedSize(items, index);
      while |index| > capacity
        invariant Indexed(items, index) && |index| == |items|
        invariant Pairs(items) + evicted == old(Contents())
        invariant |items| <= capacity + 1 && (evicted != [] ==> |items| == capacity)
        decreases |items|
      {
        var node := items[|items| - 1];
        ghost var p := Pairs(items);
        evicted := evicted + [(node.key, node.value)];
        DropIndexed(items, index);
        index := index - {node.key};
        items := items[..|items| - 1];
        assert Pairs(items) == p[..|p| - 1];
        IndexedSize(items, index);
      }
    }
  }

  lemma IndexedSize<K, V>(items: seq<Node<K, V>>, index: map<K, Node<K, V>>)
    requires Indexed(items, index)
    ensures |index| == |items|
  {
  }

  lemma SplicedSize<T>(s: seq<T>, i: nat)
    requires i < |s|
    ensures |Spliced(s, i)| == |s|
  {
  }

  lemma SplicedPairs<K, V>(s: seq<Node<K, V>>, i: nat)
    requires i < |s|
    ensures Pairs(Spliced(s, i)) == Spliced(Pairs(s), i)
  {
  }

  /** The list without the node that an iterator denotes. */
  function Unlink<T(==)>(s: seq<T>, n: T): seq<T> {
    if s == [] then [] else if s[0] == n then s[1..] else [s[0]] + Unlink(s[1..], n)
  }

  lemma {:induction false} Unlinked<T>(s: seq<T>, i: nat)
    requires i < |s| && forall j :: 0 <= j < i ==> s[j] != s[i]
    ensures Unlink(s, s[i]) == s[..i] + s[i + 1..]
  {
    if i > 0 {
      assert s[1..][i - 1] == s[i] && s[0] != s[i];
      Unlinked(s[1..], i - 1);
      assert [s[0]] + s[1..][..i - 1] == s[..i] && s[1..][i..] == s[i + 1..];
    }
  }

  lemma OneNode<K, V>(items: seq<Node<K, V>>, index: map<K, Node<K, V>>, i: nat)
    requires Indexed(items, index) && i < |items|
    ensures forall j :: 0 <= j < |items| && j != i ==> items[j] != items[i]
    ensures items[0] == items[i] ==> Spliced(items, i) == items
  {
  }

  lemma PresentFits<K, V>(capacity: nat, p: Recency<K, V>, i: nat, v: V)
    requires Distinct(p) && i < |p| <= capacity
    ensures AfterPut(capacity, p, p[i].0, v) == [(p[i].0, v)] + Without(p, p[i].0)
  {
    LookupAt(p, i);
    WithoutFacts(p, p[i].0);
  }
}
