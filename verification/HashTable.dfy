// dbase::stl::hashtable: inserting, erasing, rehashing and walking nodes that are chained per bucket.

module HashTable {
  import opened HashChains

  /** Every bucket points at its chain. */
  ghost predicate Linked(buckets: seq<HashNode?>, chains: seq<seq<HashNode>>)
    reads set b, i | 0 <= b < |chains| && 0 <= i < |chains[b]| :: chains[b][i]`next
  {
    |buckets| == |chains| && forall b :: 0 <= b < |chains| ==> Chained(buckets[b], chains[b])
  }

  ghost function NodesIn(chains: seq<seq<HashNode>>): set<HashNode> {
    set b, i | 0 <= b < |chains| && 0 <= i < |chains[b]| :: chains[b][i]
  }

  /** The bucket of a key: hash(key) modulo the number of buckets. */
  function BucketOf(hash: int -> nat, m: nat, key: int): (b: nat)
    requires m > 0
    ensures b < m
  {
    hash(key) % m
  }

  lemma ChainOf(buckets: seq<HashNode?>, chains: seq<seq<HashNode>>, b: nat)
    requires Linked(buckets, chains) && b < |chains|
    ensures |buckets| == |chains| && Chained(buckets[b], chains[b])
  {
  }

  lemma ChainLinks(first: HashNode?, s: seq<HashNode>)
    requires Chained(first, s)
    ensures first == (if s == [] then null else s[0])
    ensures forall j :: 0 <= j < |s| ==> s[j].next == After(s, j)
  {
  }

  /** A step along a chain. */
  lemma NextInChain(first: HashNode?, s: seq<HashNode>, i: nat)
    requires Chained(first, s) && i < |s|
    ensures s[i].next == After(s, i)
  {
  }

  /** A node of one chain is in no other place of the table. */
  lemma Elsewhere(hash: int -> nat, chains: seq<seq<HashNode>>, b: nat, i: nat)
    requires Table(hash, chains) && b < |chains| && i < |chains[b]|
    ensures forall c, j :: 0 <= c < |chains| && 0 <= j < |chains[c]| && !(c == b && j == i) ==>
              chains[c][j] != chains[b][i]
  {
    forall c, j | 0 <= c < |chains| && 0 <= j < |chains[c]| && !(c == b && j == i)
      ensures chains[c][j] != chains[b][i]
    {
      if c != b {
        assert hash(chains[c][j].key) % |chains| == c && hash(chains[b][i].key) % |chains| == b;
      }
    }
  }

  /** Links a new node into its bucket: behind the first node with an equal key, or else to the front. */
  method LinkIn(buckets: array<HashNode?>, np: HashNode, b: nat, ghost hash: int -> nat,
          ghost chains: seq<seq<HashNode>>)
    requires Table(hash, chains) && Linked(buckets[..], chains) && Absent(chains, np)
    requires b == BucketOf(hash, |chains|, np.key) && b < buckets.Length
    modifies buckets, np`next, NodesIn(chains)`next
    ensures Place(chains[b], np.key) <= |chains[b]|
    ensures Linked(buckets[..], chains[b := PutIn(chains[b], Place(chains[b], np.key), np)])
  {
    hide FirstWith, Linked, Table, Absent, Chained;
    ghost var s := chains[b];
    ghost var f := FirstWith(s, np.key);
    PlaceInRange(s, np.key);
    ChainOf(buckets[..], chains, b);
    ChainStarts(buckets[..][b], s);
    var cur := buckets[b];
    ghost var i := 0;
    while cur != null
      invariant i <= |s| && cur == (if i < |s| then s[i] else null)
      invariant forall j :: 0 <= j < i ==> s[j].key != np.key
      invariant Linked(buckets[..], chains) && Chained(buckets[..][b], s)
      decreases |s| - i
    {
      if cur.key == np.key {
        assert f == i;
        LinkBehind(cur, np, buckets[..], hash, chains, b, i);
        return;
      }
      NextInChain(buckets[..][b], s, i);
      cur := cur.next;
      i := i + 1;
    }
    LinkFirst(buckets, np, hash, chains, b);
  }

  lemma ChainStarts(first: HashNode?, s: seq<HashNode>)
    requires Chained(first, s)
    ensures first == (if s == [] then null else s[0])
  {
  }

  /** What makes a chain, link by link. */
  lemma MakeChain(first: HashNode?, s: seq<HashNode>)
    requires first == (if s == [] then null else s[0])
    requires forall j :: 0 <= j < |s| ==> s[j].next == After(s, j)
    ensures Chained(first, s)
  {
  }

  lemma MakeLinked(buckets: seq<HashNode?>, chains: seq<seq<HashNode>>)
    requires |buckets| == |chains| && forall c :: 0 <= c < |chains| ==> Chained(buckets[c], chains[c])
    ensures Linked(buckets, chains)
  {
  }

  method LinkBehind(cur: HashNode, np: HashNode, ghost buckets: seq<HashNode?>, ghost hash: int -> nat,
          ghost chains: seq<seq<HashNode>>, ghost b: nat, ghost i: nat)
    requires Table(hash, chains) && Linked(buckets, chains) && Absent(chains, np)
    requires b < |chains| && i < |chains[b]| && cur == chains[b][i]
    modifies np`next, cur`next
    ensures Linked(buckets, chains[b := PutIn(chains[b], i + 1, np)])
  {
    hide Table;
    Elsewhere(hash, chains, b, i);
    ChainOf(buckets, chains, b);
    ghost var s, t := chains[b], PutIn(chains[b], i + 1, np);
    ChainLinks(buckets[b], s);
    np.next := cur.next;
    cur.next := np;
    forall j | 0 <= j < |t|
      ensures t[j].next == After(t, j)
    {
      assert t[j] == if j <= i then s[j] else if j == i + 1 then np else s[j - 1];
      assert j + 1 < |t| ==> t[j + 1] == if j + 1 <= i then s[j + 1] else if j == i then np else s[j];
    }
    MakeChain(buckets[b], t);
    forall c | 0 <= c < |chains| && c != b
      ensures Chained(buckets[c], chains[c])
    {
      assert old(Chained(buckets[c], chains[c]));
    }
    MakeLinked(buckets, chains[b := t]);
  }

  method LinkFirst(buckets: array<HashNode?>, np: HashNode, ghost hash: int -> nat, ghost chains: seq<seq<HashNode>>,
          b: nat)
    requires Table(hash, chains) && Linked(buckets[..], chains) && Absent(chains, np)
    requires b < |chains| && b < buckets.Length
    modifies buckets, np`next
    ensures Linked(buckets[..], chains[b := PutIn(chains[b], 0, np)])
  {
    hide Table;
    ghost var s0 := buckets[..];
    ChainOf(s0, chains, b);
    ghost var s, t := chains[b], PutIn(chains[b], 0, np);
    ChainLinks(s0[b], s);
    np.next := buckets[b];
    buckets[b] := np;
    forall j | 0 <= j < |t|
      ensures t[j].next == After(t, j)
    {
      assert t[j] == if j == 0 then np else s[j - 1];
      assert j + 1 < |t| ==> t[j + 1] == s[j];
    }
    MakeChain(np, t);
    forall c | 0 <= c < |chains| && c != b
      ensures Chained(buckets[..][c], chains[c])
    {
      assert old(Chained(s0[c], chains[c]));
    }
    MakeLinked(buckets[..], chains[b := t]);
  }

  /** The inner loop of replace_bucket: copies of the nodes of one chain go into the new buckets. */
  method CopyChain(first0: HashNode?, bucket: array<HashNode?>, hash: int -> nat, ghost s: seq<HashNode>,
          ghost copies0: seq<seq<HashNode>>)
    returns (ghost copies: seq<seq<HashNode>>)
    requires Chained(first0, s) && Table(hash, copies0) && Linked(bucket[..], copies0) && bucket.Length == |copies0|
    requires forall n :: n in s ==> n !in NodesIn(copies0)
    modifies bucket, NodesIn(copies0)`next
    ensures Table(hash, copies) && Linked(bucket[..], copies) && |copies| == |copies0|
    ensures forall n :: n in NodesIn(copies) ==> n in NodesIn(copies0) || fresh(n)
    ensures Bag(copies) == Bag(copies0) + multiset(Pairs(s))
  {
    hide Linked, Place, Table, Chained, Bag, PutIn, NodesIn;
    copies := copies0;
    var first := first0;
    ghost var i := 0;
    ChainStarts(first0, s);
    while first != null
      invariant i <= |s| && first == (if i < |s| then s[i] else null)
      invariant Chained(first0, s) && Table(hash, copies) && Linked(bucket[..], copies) && |copies| == |copies0|
      invariant forall n :: n in NodesIn(copies) ==> n in NodesIn(copies0) || fresh(n)
      invariant Bag(copies) == Bag(copies0) + multiset(Pairs(s[..i]))
      decreases |s| - i
    {
      ghost var nodes := NodesIn(copies);
      assert allocated(nodes);
      var tmp := new HashNode(first.key, first.value);
      TableSize(hash, copies);
      NewIsAbsent(copies, tmp);
      var b := BucketOf(hash, bucket.Length, first.key);
      TableWith(hash, copies, tmp, b);
      BagWith(copies, b, Place(copies[b], tmp.key), tmp);
      NodesWith(copies, b, Place(copies[b], tmp.key), tmp);
      LinkIn(bucket, tmp, b, hash, copies);
      copies := copies[b := PutIn(copies[b], Place(copies[b], tmp.key), tmp)];
      OneMorePair(s, i);
      NextInChain(first0, s, i);
      first := first.next;
      i := i + 1;
    }
    assert s[..i] == s;
  }

  /** The outer loop of replace_bucket. */
  method CopyAll(buckets: array<HashNode?>, ghost chains: seq<seq<HashNode>>, bucket: array<HashNode?>,
          hash: int -> nat, ghost copies0: seq<seq<HashNode>>)
    returns (ghost copies: seq<seq<HashNode>>)
    requires Linked(buckets[..], chains) && Table(hash, copies0) && Linked(bucket[..], copies0)
    requires bucket != buckets && NodesIn(copies0) == {} && Bag(copies0) == multiset{}
    modifies bucket
    ensures Table(hash, copies) && Linked(bucket[..], copies) && |copies| == |copies0|
    ensures fresh(NodesIn(copies)) && Bag(copies) == Bag(chains)
  {
    hide Linked, Table, Chained, Bag, NodesIn;
    LinkedSize(buckets[..], chains);
    LinkedSize(bucket[..], copies0);
    copies := copies0;
    EmptyBag(chains);
    ghost var nodes := NodesIn(chains);
    assert allocated(nodes);
    var i := 0;
    while i < buckets.Length
      invariant i <= buckets.Length && |copies| == |copies0|
      invariant Table(hash, copies) && Linked(bucket[..], copies)
      invariant forall n :: n in NodesIn(copies) ==> fresh(n)
      invariant Linked(buckets[..], chains) && buckets[..] == old(buckets[..])
      invariant Bag(copies) == Bag(chains[..i])
    {
      ChainOf(buckets[..], chains, i);
      ChainNodes(chains, i);
      copies := CopyChain(buckets[i], bucket, hash, chains[i], copies);
      BagNext(chains, i);
      i := i + 1;
    }
    assert chains[..|chains|] == chains;
  }

  lemma ChainNodes(chains: seq<seq<HashNode>>, b: nat)
    requires b < |chains|
    ensures forall n :: n in chains[b] ==> n in NodesIn(chains)
  {
  }

  lemma EmptyBag(chains: seq<seq<HashNode>>)
    ensures Bag(chains[..0]) == multiset{}
  {
    assert chains[..0] == [];
  }

  lemma NewIsAbsent(chains: seq<seq<HashNode>>, n: HashNode)
    requires n !in NodesIn(chains)
    ensures Absent(chains, n)
  {
    forall b | 0 <= b < |chains|
      ensures n !in chains[b]
    {
      assert forall i :: 0 <= i < |chains[b]| ==> chains[b][i] in NodesIn(chains);
    }
  }

  lemma NodesWith(chains: seq<seq<HashNode>>, b: nat, i: nat, n: HashNode)
    requires b < |chains| && i <= |chains[b]|
    ensures NodesIn(chains[b := PutIn(chains[b], i, n)]) <= NodesIn(chains) + {n}
  {
  }

  lemma OneMorePair(s: seq<HashNode>, i: nat)
    requires i < |s|
    ensures multiset(Pairs(s[..i + 1])) == multiset(Pairs(s[..i])) + multiset{(s[i].key, s[i].value)}
  {
    assert Pairs(s[..i + 1]) == Pairs(s[..i]) + [(s[i].key, s[i].value)];
  }

  class HashTable {
    const hash: int -> nat
    var buckets: array<HashNode?>
    var size: nat
    ghost var chains: seq<seq<HashNode>>

    ghost predicate Valid()
      reads this, buckets, NodesIn(chains)
    {
      Table(hash, chains) && Linked(buckets[..], chains) && size == |Flat(chains)|
    }

    constructor (hash: int -> nat, bucketCount: nat)
      requires bucketCount > 0
      ensures Valid() && this.hash == hash && |chains| == bucketCount && Flat(chains) == [] && fresh(buckets)
    {
      this.hash := hash;
      buckets := new HashNode?[bucketCount](_ => null);
      size := 0;
      chains := seq(bucketCount, _ => []);
      new;
      FlatEmpty(chains);
    }

    /** insert_node_multi: the new node goes right behind the first node with its key, or to the front of its chain. */
    method InsertNode(np: HashNode) returns (ghost at: nat)
      requires Valid() && Absent(chains, np)
      modifies this`size, this`chains, buckets, np`next, NodesIn(chains)`next
      ensures Valid() && buckets == old(buckets)
      ensures var b := BucketOf(hash, |old(chains)|, np.key);
              var s := old(chains)[b];
              && at <= |s| && chains == old(chains)[b := s[..at] + [np] + s[at..]]
              && (forall j :: 0 <= j < at - 1 ==> s[j].key != np.key)
              && if at > 0 then s[at - 1].key == np.key else forall j :: 0 <= j < |s| ==> s[j].key != np.key
      ensures Bag(chains) == Bag(old(chains)) + multiset{(np.key, np.value)} && size == old(size) + 1
    {
      hide Linked, Place, Table, Absent, Bag, NodesIn, Flat;
      TableSize(hash, chains);
      LinkedSize(buckets[..], chains);
      var b := BucketOf(hash, buckets.Length, np.key);
      TableWith(hash, chains, np, b);
      BagWith(chains, b, Place(chains[b], np.key), np);
      LinkIn(buckets, np, b, hash, chains);
      at := Place(chains[b], np.key);
      PlaceIs(chains[b], np.key);
      chains := chains[b := PutIn(chains[b], at, np)];
      size := size + 1;
    }

    /** replace_bucket, for any new number of buckets: every pair is kept, in chains that belong to it. */
    method ReplaceBucket(bucketCount: nat)
      requires Valid() && bucketCount > 0
      modifies this`buckets, this`chains
      ensures Valid() && |chains| == bucketCount && Bag(chains) == old(Bag(chains)) && size == old(size)
      ensures fresh(buckets) && fresh(NodesIn(chains))
    {
      hide Linked, Table, Chained, Bag, NodesIn, Flat;
      var bucket := new HashNode?[bucketCount](_ => null);
      ghost var copies := seq(bucketCount, _ => []);
      EmptyTable(hash, bucket[..], copies);
      LinkedSize(buckets[..], chains);
      BagOfFlat(chains);
      if size != 0 {
        copies := CopyAll(buckets, chains, bucket, hash, copies);
      } else {
        NoPairs(chains);
      }
      BagOfFlat(copies);
      buckets, chains := bucket, copies;
    }

    /** erase of the node an iterator denotes. */
    method Erase(p: HashNode?, ghost b: nat, ghost i: nat)
      requires Valid()
      requires p != null ==> b < |chains| && i < |chains[b]| && chains[b][i] == p
      modifies this`size, this`chains, buckets, NodesIn(chains)`next
      ensures Valid() && buckets == old(buckets)
      ensures p == null ==> chains == old(chains)
      ensures p != null ==> chains == old(chains)[b := Dropped(old(chains)[b], i)] && size == old(size) - 1
      ensures p != null ==> Bag(chains) + multiset{(p.key, p.value)} == Bag(old(chains))
    {
      if p != null {
        EraseNode(p, b, i);
      }
    }

    method EraseNode(p: HashNode, ghost b: nat, ghost i: nat)
      requires Valid() && b < |chains| && i < |chains[b]| && chains[b][i] == p
      modifies this`size, this`chains, buckets, NodesIn(chains)`next
      ensures Valid() && buckets == old(buckets)
      ensures chains == old(chains)[b := Dropped(old(chains)[b], i)] && size == old(size) - 1
      ensures Bag(chains) + multiset{(p.key, p.value)} == Bag(old(chains))
    {
      hide Linked, Table, Bag, Flat, Home, Dropped, NodesIn;
      TableSize(hash, chains);
      LinkedSize(buckets[..], chains);
      KeyHome(hash, chains, b, i);
      TableWithout(hash, chains, b, i);
      BagWithout(chains, b, i);
      Unlink(buckets, p, BucketOf(hash, buckets.Length, p.key), hash, chains, i);
      chains := chains[b := Dropped(chains[b], i)];
      size := size - 1;
    }

    /** The iterator's ++: the next node in iteration order, null at the end. */
    method Next(node0: HashNode, ghost b: nat, ghost i: nat) returns (node: HashNode?)
      requires Valid() && b < |chains| && i < |chains[b]| && chains[b][i] == node0
      ensures node == NodeAt(chains, FlatIndex(chains, b, i) + 1)
    {
      hide Linked, Table, Flat, FlatIndex, Home;
      TableSize(hash, chains);
      LinkedSize(buckets[..], chains);
      ChainOf(buckets[..], chains, b);
      NextInChain(buckets[..][b], chains[b], i);
      KeyHome(hash, chains, b, i);
      FollowsInChain(chains, b, i);
      node := node0.next;
      if node == null {
        node := FirstFrom(buckets, BucketOf(hash, buckets.Length, node0.key) + 1, chains);
      }
    }

    /** count. */
    method Count(key: int) returns (result: nat)
      requires Valid()
      ensures result == Occurrences(Flat(chains), key)
    {
      hide Linked, Table, Flat, Occurrences;
      TableSize(hash, chains);
      LinkedSize(buckets[..], chains);
      var b := BucketOf(hash, buckets.Length, key);
      ChainOf(buckets[..], chains, b);
      ChainStarts(buckets[..][b], chains[b]);
      OnlyInBucket(hash, chains, key, b);
      ghost var s, i := chains[b], 0;
      result := 0;
      var cur := buckets[b];
      NoOccurrences(s, key);
      while cur != null
        invariant i <= |s| && cur == (if i < |s| then s[i] else null)
        invariant result == Occurrences(s[..i], key)
        decreases |s| - i
      {
        OneMore(s, i, key);
        NextInChain(buckets[..][b], s, i);
        if cur.key == key {
          result := result + 1;
        }
        cur := cur.next;
        i := i + 1;
      }
      assert s[..i] == s;
    }

    /** equal_range_multi: the nodes with the key are exactly those at places x to y - 1 in iteration order. */
    method EqualRange(key: int) returns (first: HashNode?, second: HashNode?, ghost x: nat, ghost y: nat)
      requires Valid()
      ensures KeyRange(Flat(chains), key, x, y)
      ensures x < y ==> first == Flat(chains)[x] && second == NodeAt(chains, y)
      ensures x == y ==> first == null && second == null
      ensures first == null <==> Occurrences(Flat(chains), key) == 0
    {
      hide Linked, Table, Flat, FlatIndex, Home, Grouped, NoRepeats;
      TableSize(hash, chains);
      LinkedSize(buckets[..], chains);
      var b := BucketOf(hash, buckets.Length, key);
      ghost var s, i := chains[b], 0;
      ChainOf(buckets[..], chains, b);
      ChainStarts(buckets[..][b], s);
      first := buckets[b];
      while first != null
        invariant i <= |s| && first == (if i < |s| then s[i] else null)
        invariant forall j :: 0 <= j < i ==> s[j].key != key
        decreases |s| - i
      {
        if first.key == key {
          ghost var j;
          second, j := EndOfGroup(first, s, i, buckets, b, chains, key);
          RangeInFlat(hash, chains, b, i, j, key);
          x, y := FlatIndex(chains, b, i), FlatIndex(chains, b, j);
          FlatAt(chains, b, i);
          RangeCount(Flat(chains), key, x, y);
          return;
        }
        NextInChain(buckets[..][b], s, i);
        first := first.next;
        i := i + 1;
      }
      second := null;
      RangeInFlat(hash, chains, b, i, i, key);
      x, y := FlatIndex(chains, b, i), FlatIndex(chains, b, i);
      RangeCount(Flat(chains), key, x, y);
    }

    /** From the first iterator of equal_range_multi by ++ to the second one: every node with the key, each once,
        and as many as count says. */
    method WalkRange(key: int) returns (n: nat, ghost visited: seq<HashNode>)
      requires Valid()
      ensures n == |visited| == Occurrences(Flat(chains), key) && NoRepeats(visited)
      ensures forall p :: p in visited <==> p in Flat(chains) && p.key == key
    {
      hide Linked, Table, Flat, FlatIndex, Home, Occurrences;
      ghost var flat := Flat(chains);
      FlatDistinct(hash, chains);
      var node, second;
      ghost var x, y;
      node, second, x, y := EqualRange(key);
      RangeCount(flat, key, x, y);
      ghost var z := x;
      n, visited := 0, [];
      while node != second
        invariant x <= z <= y <= |flat| && n == z - x && visited == flat[x..z]
        invariant x < y ==> node == NodeAt(chains, z) && second == NodeAt(chains, y)
        invariant x == y ==> node == second
        decreases y - z
      {
        ghost var b, i := FlatInverse(chains, z);
        visited := visited + [node];
        node := Next(node, b, i);
        n := n + 1;
        z := z + 1;
      }
      if x < y {
        SameNode(chains, z, y);
      }
      InRange(flat, key, x, y);
    }
  }

  /** A node lives in one place of the walk only. */
  lemma FlatDistinct(hash: int -> nat, chains: seq<seq<HashNode>>)
    requires Table(hash, chains)
    ensures NoRepeats(Flat(chains))
  {
    hide Flat, FlatIndex, Grouped;
    var flat := Flat(chains);
    forall x, y | 0 <= x < y < |flat|
      ensures flat[x] != flat[y]
    {
      var b, i := FlatInverse(chains, x);
      var c, j := FlatInverse(chains, y);
      assert hash(chains[b][i].key) % |chains| == b && hash(chains[c][j].key) % |chains| == c;
      assert b == c ==> i != j;
    }
  }

  lemma SameNode(chains: seq<seq<HashNode>>, x: nat, y: nat)
    requires NoRepeats(Flat(chains)) && x <= y <= |Flat(chains)| && NodeAt(chains, x) == NodeAt(chains, y)
    ensures x == y
  {
    hide Flat;
  }

  lemma InRange(s: seq<HashNode>, key: int, x: nat, y: nat)
    requires KeyRange(s, key, x, y) && NoRepeats(s)
    ensures NoRepeats(s[x..y]) && forall p :: p in s[x..y] <==> p in s && p.key == key
  {
  }

  /** Exactly the places from x to y - 1 hold the key. */
  ghost predicate KeyRange(s: seq<HashNode>, key: int, x: nat, y: nat) {
    x <= y <= |s| && forall z :: 0 <= z < |s| ==> (s[z].key == key <==> x <= z < y)
  }

  /** The inner loops of equal_range_multi: the first node behind the group that starts at s[i]. */
  method EndOfGroup(first: HashNode, ghost s: seq<HashNode>, ghost i: nat, buckets: array<HashNode?>, b: nat,
          ghost chains: seq<seq<HashNode>>, key: int)
    returns (second: HashNode?, ghost j: nat)
    requires Linked(buckets[..], chains) && b < |chains| && s == chains[b] && i < |s| && first == s[i]
              && first.key == key
    ensures i < j <= |s| && (forall k :: i <= k < j ==> s[k].key == key) && (j < |s| ==> s[j].key != key)
    ensures second == NodeAt(chains, FlatIndex(chains, b, j))
  {
    hide Linked, Flat, FlatIndex;
    LinkedSize(buckets[..], chains);
    ChainOf(buckets[..], chains, b);
    NextInChain(buckets[..][b], s, i);
    second := first.next;
    j := i + 1;
    while second != null
      invariant i < j <= |s| && second == (if j < |s| then s[j] else null)
      invariant forall k :: i <= k < j ==> s[k].key == key
      decreases |s| - j
    {
      if second.key != key {
        FlatAt(chains, b, j);
        return;
      }
      NextInChain(buckets[..][b], s, j);
      second := second.next;
      j := j + 1;
    }
    FlatNextBucket(chains, b);
    second := FirstFrom(buckets, b + 1, chains);
  }

  /** The group of a key in its chain is its range in iteration order. */
  lemma RangeInFlat(hash: int -> nat, chains: seq<seq<HashNode>>, b: nat, i: nat, j: nat, key: int)
    requires Table(hash, chains) && |chains| > 0 && b == BucketOf(hash, |chains|, key) && i <= j <= |chains[b]|
    requires forall k :: 0 <= k < i ==> chains[b][k].key != key
    requires forall k :: i <= k < j ==> chains[b][k].key == key
    requires j < |chains[b]| ==> i < j && chains[b][j].key != key
    ensures KeyRange(Flat(chains), key, FlatIndex(chains, b, i), FlatIndex(chains, b, j))
  {
    var s := chains[b];
    NoneBehind(hash, chains, b, i, j, key);
    hide Table, Flat, FlatIndex;
    FlatMonotone(chains, b + 1, |chains|);
    FlatNextBucket(chains, b);
    FlatEnd(chains);
    FlatIndexes(chains, b, i, j);
    forall z | 0 <= z < |Flat(chains)|
      ensures Flat(chains)[z].key == key <==> FlatIndex(chains, b, i) <= z < FlatIndex(chains, b, j)
    {
      var c, k := FlatInverse(chains, z);
      FlatNextBucket(chains, c);
      FlatIndexes(chains, c, k, |chains[c]|);
      if c == b {
        FlatIndexes(chains, b, i, k);
        FlatIndexes(chains, b, j, k);
      } else {
        OtherBucket(hash, chains, c, key);
        if c < b {
          FlatMonotone(chains, c + 1, b);
          FlatIndexes(chains, b, 0, i);
        } else {
          FlatMonotone(chains, b + 1, c);
          FlatIndexes(chains, b, j, |s|);
          FlatIndexes(chains, c, 0, k);
        }
      }
    }
  }

  lemma FlatIndexes(chains: seq<seq<HashNode>>, b: nat, i: nat, j: nat)
    requires b <= |chains|
    ensures FlatIndex(chains, b, j) - FlatIndex(chains, b, i) == j - i
  {
  }

  /** Behind the group no further node has the key. */
  lemma NoneBehind(hash: int -> nat, chains: seq<seq<HashNode>>, b: nat, i: nat, j: nat, key: int)
    requires Table(hash, chains) && b < |chains| && i <= j <= |chains[b]|
    requires forall k :: i <= k < j ==> chains[b][k].key == key
    requires j < |chains[b]| ==> i < j && chains[b][j].key != key
    ensures forall k :: j <= k < |chains[b]| ==> chains[b][k].key != key
  {
    var s := chains[b];
    assert Grouped(s);
    forall k | j <= k < |s|
      ensures s[k].key != key
    {
      assert k > j ==> s[i].key != s[k].key;
    }
  }

  /** The range holds as many nodes as count reports. */
  lemma {:induction false} RangeCount(s: seq<HashNode>, key: int, x: nat, y: nat)
    requires KeyRange(s, key, x, y)
    ensures Occurrences(s, key) == y - x
  {
    if s != [] {
      var z := |s| - 1;
      RangeCount(s[..z], key, if x <= z then x else z, if y <= z then y else z);
    }
  }

  lemma TableSize(hash: int -> nat, chains: seq<seq<HashNode>>)
    requires Table(hash, chains)
    ensures |chains| > 0
  {
  }

  lemma LinkedSize(buckets: seq<HashNode?>, chains: seq<seq<HashNode>>)
    requires Linked(buckets, chains)
    ensures |buckets| == |chains|
  {
  }

  lemma EmptyTable(hash: int -> nat, buckets: seq<HashNode?>, chains: seq<seq<HashNode>>)
    requires |buckets| == |chains| > 0
    requires forall b :: 0 <= b < |chains| ==> buckets[b] == null && chains[b] == []
    ensures Table(hash, chains) && Linked(buckets, chains) && Bag(chains) == multiset{} && NodesIn(chains) == {}
  {
    FlatEmpty(chains);
    BagOfFlat(chains);
  }

  lemma BagNext(chains: seq<seq<HashNode>>, i: nat)
    requires i < |chains|
    ensures Bag(chains[..i + 1]) == Bag(chains[..i]) + multiset(Pairs(chains[i]))
  {
    assert chains[..i + 1][..i] == chains[..i];
  }

  lemma NoPairs(chains: seq<seq<HashNode>>)
    requires Flat(chains) == []
    ensures Bag(chains) == multiset{}
  {
    BagOfFlat(chains);
  }

  function NodeAt(chains: seq<seq<HashNode>>, x: nat): HashNode? {
    if x < |Flat(chains)| then Flat(chains)[x] else null
  }

  lemma KeyHome(hash: int -> nat, chains: seq<seq<HashNode>>, b: nat, i: nat)
    requires Table(hash, chains) && b < |chains| && i < |chains[b]|
    ensures BucketOf(hash, |chains|, chains[b][i].key) == b
  {
  }

  /** Within a chain the next node is the next one in iteration order; behind its end comes the next bucket. */
  lemma FollowsInChain(chains: seq<seq<HashNode>>, b: nat, i: nat)
    requires b < |chains| && i < |chains[b]|
    ensures i + 1 < |chains[b]| ==> NodeAt(chains, FlatIndex(chains, b, i) + 1) == chains[b][i + 1]
    ensures i + 1 == |chains[b]| ==> FlatIndex(chains, b, i) + 1 == FlatIndex(chains, b + 1, 0)
  {
    if i + 1 < |chains[b]| {
      FlatAt(chains, b, i + 1);
    } else {
      FlatNextBucket(chains, b);
    }
  }

  /** The first node from bucket `from` on. */
  method FirstFrom(buckets: array<HashNode?>, from: nat, ghost chains: seq<seq<HashNode>>) returns (node: HashNode?)
    requires Linked(buckets[..], chains) && from <= buckets.Length
    ensures from <= |chains| && node == NodeAt(chains, FlatIndex(chains, from, 0))
  {
    hide Linked, Flat;
    LinkedSize(buckets[..], chains);
    node := null;
    var index: nat := from;
    while node == null && index < buckets.Length
      invariant from <= index <= buckets.Length
      invariant node == null ==> FlatIndex(chains, index, 0) == FlatIndex(chains, from, 0)
      invariant node != null ==> node == NodeAt(chains, FlatIndex(chains, from, 0))
      decreases buckets.Length - index
    {
      ChainOf(buckets[..], chains, index);
      ChainStarts(buckets[..][index], chains[index]);
      if chains[index] == [] {
        FlatNextBucket(chains, index);
      } else {
        FlatAt(chains, index, 0);
      }
      node := buckets[index];
      index := index + 1;
    }
    FlatEnd(chains);
  }

  /** How many nodes have this key. */
  function Occurrences(s: seq<HashNode>, key: int): nat {
    if s == [] then 0 else Occurrences(s[..|s| - 1], key) + if s[|s| - 1].key == key then 1 else 0
  }

  lemma OneMore(s: seq<HashNode>, i: nat, key: int)
    requires i < |s|
    ensures Occurrences(s[..i + 1], key) == Occurrences(s[..i], key) + if s[i].key == key then 1 else 0
  {
    assert s[..i + 1][..i] == s[..i];
  }

  lemma NoOccurrences(s: seq<HashNode>, key: int)
    ensures Occurrences(s[..0], key) == 0
  {
  }

  lemma {:induction false} OccurrencesConcat(s: seq<HashNode>, t: seq<HashNode>, key: int)
    ensures Occurrences(s + t, key) == Occurrences(s, key) + Occurrences(t, key)
  {
    if t == [] {
      assert s + t == s;
    } else {
      OccurrencesConcat(s, t[..|t| - 1], key);
      assert (s + t)[..|s + t| - 1] == s + t[..|t| - 1];
    }
  }

  lemma {:induction false} NoneHere(s: seq<HashNode>, key: int)
    requires forall i :: 0 <= i < |s| ==> s[i].key != key
    ensures Occurrences(s, key) == 0
  {
    if s != [] {
      NoneHere(s[..|s| - 1], key);
    }
  }

  /** All nodes with a key are in its bucket. */
  lemma OnlyInBucket(hash: int -> nat, chains: seq<seq<HashNode>>, key: int, b: nat)
    requires Table(hash, chains) && b == BucketOf(hash, |chains|, key)
    ensures Occurrences(Flat(chains), key) == Occurrences(chains[b], key)
  {
    CountUpTo(hash, chains, |chains|, key, b);
    assert chains[..|chains|] == chains;
  }

  lemma {:induction false} CountUpTo(hash: int -> nat, chains: seq<seq<HashNode>>, n: nat, key: int, b: nat)
    requires Table(hash, chains) && b == BucketOf(hash, |chains|, key) && n <= |chains|
    ensures Occurrences(Flat(chains[..n]), key) == if b < n then Occurrences(chains[b], key) else 0
  {
    if n > 0 {
      CountUpTo(hash, chains, n - 1, key, b);
      assert chains[..n][..n - 1] == chains[..n - 1];
      OccurrencesConcat(Flat(chains[..n - 1]), chains[n - 1], key);
      if n - 1 != b {
        OtherBucket(hash, chains, n - 1, key);
        NoneHere(chains[n - 1], key);
      }
    }
  }

  lemma OtherBucket(hash: int -> nat, chains: seq<seq<HashNode>>, c: nat, key: int)
    requires Table(hash, chains) && c < |chains| && c != BucketOf(hash, |chains|, key)
    ensures forall i :: 0 <= i < |chains[c]| ==> chains[c][i].key != key
  {
  }

  /** The search for `p` from the head of its chain, and the link around it. */
  method Unlink(buckets: array<HashNode?>, p: HashNode, b: nat, ghost hash: int -> nat,
          ghost chains: seq<seq<HashNode>>, ghost i: nat)
    requires Table(hash, chains) && Linked(buckets[..], chains)
    requires b < buckets.Length && b < |chains| && i < |chains[b]| && chains[b][i] == p
    modifies buckets, NodesIn(chains)`next
    ensures Linked(buckets[..], chains[b := Dropped(chains[b], i)])
  {
    hide Linked, Table, Chained;
    ghost var s := chains[b];
    ChainOf(buckets[..], chains, b);
    ChainStarts(buckets[..][b], s);
    Elsewhere(hash, chains, b, i);
    var cur := buckets[b];
    if cur == p {
      UnlinkFirst(buckets, p, b, hash, chains, i);
    } else {
      ghost var j := 0;
      NextInChain(buckets[..][b], s, 0);
      var next := cur.next;
      while next != null
        invariant j < i && cur == s[j] && next == s[j + 1]
        invariant Linked(buckets[..], chains) && Chained(buckets[..][b], s)
        decreases i - j
      {
        if next == p {
          UnlinkBehind(cur, next, buckets[..], hash, chains, b, j);
          return;
        } else {
          NextInChain(buckets[..][b], s, j + 1);
          cur := next;
          next := cur.next;
          j := j + 1;
        }
      }
    }
  }

  method UnlinkFirst(buckets: array<HashNode?>, p: HashNode, b: nat, ghost hash: int -> nat,
          ghost chains: seq<seq<HashNode>>, ghost i: nat)
    requires Table(hash, chains) && Linked(buckets[..], chains)
    requires b < buckets.Length && b < |chains| && i < |chains[b]| && chains[b][i] == p == buckets[b]
    modifies buckets
    ensures Linked(buckets[..], chains[b := Dropped(chains[b], i)])
  {
    hide Table;
    ghost var s0, s := buckets[..], chains[b];
    ChainOf(s0, chains, b);
    ChainLinks(s0[b], s);
    Elsewhere(hash, chains, b, i);
    assert i == 0;
    ghost var t := Dropped(s, i);
    buckets[b] := p.next;
    forall j | 0 <= j < |t|
      ensures t[j].next == After(t, j)
    {
      assert t[j] == s[j + 1];
    }
    MakeChain(buckets[b], t);
    forall c | 0 <= c < |chains| && c != b
      ensures Chained(buckets[..][c], chains[c])
    {
      assert old(Chained(s0[c], chains[c]));
    }
    MakeLinked(buckets[..], chains[b := t]);
  }

  method UnlinkBehind(cur: HashNode, next: HashNode, ghost buckets: seq<HashNode?>, ghost hash: int -> nat,
          ghost chains: seq<seq<HashNode>>, ghost b: nat, ghost j: nat)
    requires Table(hash, chains) && Linked(buckets, chains)
    requires b < |chains| && j + 1 < |chains[b]| && cur == chains[b][j] && next == chains[b][j + 1]
    modifies cur`next
    ensures Linked(buckets, chains[b := Dropped(chains[b], j + 1)])
  {
    hide Table;
    ghost var s, t := chains[b], Dropped(chains[b], j + 1);
    ChainOf(buckets, chains, b);
    ChainLinks(buckets[b], s);
    Elsewhere(hash, chains, b, j);
    cur.next := next.next;
    forall x | 0 <= x < |t|
      ensures t[x].next == After(t, x)
    {
      assert t[x] == if x <= j then s[x] else s[x + 1];
    }
    MakeChain(buckets[b], t);
    forall c | 0 <= c < |chains| && c != b
      ensures Chained(buckets[c], chains[c])
    {
      assert old(Chained(buckets[c], chains[c]));
    }
    MakeLinked(buckets, chains[b := t]);
  }
}
