// The bucket chains of dbase/stl/hashtable.h: one chain, and all of them in iteration order.

module HashChains {
  class HashNode {
    const key: int
    const value: int
    var next: HashNode?

    constructor (key: int, value: int)
      ensures this.key == key && this.value == value && next == null
    {
      this.key, this.value := key, value;
      next := null;
    }
  }

  /** The node behind s[i], if there is one. */
  function After(s: seq<HashNode>, i: nat): HashNode?
    requires i < |s|
  {
    if i + 1 < |s| then s[i + 1] else null
  }

  /** The nodes of `s`, linked in this order from `first`. */
  ghost predicate Chained(first: HashNode?, s: seq<HashNode>)
    reads set i | 0 <= i < |s| :: s[i]`next
  {
    && first == (if s == [] then null else s[0])
    && forall i :: 0 <= i < |s| ==> s[i].next == After(s, i)
  }

  ghost predicate NoRepeats(s: seq<HashNode>) {
    forall i, j :: 0 <= i < j < |s| ==> s[i] != s[j]
  }

  /** Equal keys are neighbours. */
  predicate Grouped(s: seq<HashNode>) {
    forall i, j, k :: 0 <= i < j < k < |s| && s[i].key == s[k].key ==> s[j].key == s[i].key
  }

  predicate Home(hash: int -> nat, m: nat, s: seq<HashNode>, b: nat)
    requires m > 0
  {
    forall i :: 0 <= i < |s| ==> hash(s[i].key) % m == b
  }

  /** Where the first node with this key is; |s| if there is none. */
  function FirstWith(s: seq<HashNode>, key: int): (i: nat)
    ensures i <= |s| && (forall j :: 0 <= j < i ==> s[j].key != key) && (i < |s| ==> s[i].key == key)
  {
    if s == [] then 0 else if s[0].key == key then 0 else
      var i := 1 + FirstWith(s[1..], key);
      assert forall j :: 1 <= j < i ==> s[j] == s[1..][j - 1];
      i
  }

  function PutIn<T>(s: seq<T>, i: nat, n: T): seq<T>
    requires i <= |s|
  {
    s[..i] + [n] + s[i..]
  }

  function Dropped<T>(s: seq<T>, i: nat): seq<T>
    requires i < |s|
  {
    s[..i] + s[i + 1..]
  }

  /** A new node goes behind the first one with its key, or to the front. */
  function Place(s: seq<HashNode>, key: int): nat {
    if FirstWith(s, key) < |s| then FirstWith(s, key) + 1 else 0
  }

  lemma PlaceInRange(s: seq<HashNode>, key: int)
    ensures Place(s, key) <= |s|
  {
  }

  lemma PlaceIs(s: seq<HashNode>, key: int)
    ensures var p := Place(s, key);
      && p <= |s| && (forall j :: 0 <= j < p - 1 ==> s[j].key != key)
      && if p > 0 then s[p - 1].key == key else forall j :: 0 <= j < |s| ==> s[j].key != key
  {
  }

  lemma PlacedGrouped(s: seq<HashNode>, n: HashNode)
    requires Grouped(s)
    ensures Place(s, n.key) <= |s| && Grouped(PutIn(s, Place(s, n.key), n))
  {
    var f, p := FirstWith(s, n.key), Place(s, n.key);
    var t := PutIn(s, p, n);
    hide FirstWith;
    forall i, j, k | 0 <= i < j < k < |t| && t[i].key == t[k].key
      ensures t[j].key == t[i].key
    {
      GroupedAt(s, n, f, p, i, j, k);
    }
  }

  lemma GroupedAt(s: seq<HashNode>, n: HashNode, f: nat, p: nat, i: nat, j: nat, k: nat)
    requires Grouped(s) && f <= |s| && (forall x :: 0 <= x < f ==> s[x].key != n.key) && (f < |s| ==> s[f].key == n.key)
    requires p == (if f < |s| then f + 1 else 0) && i < j < k <= |s|
    ensures var t := PutIn(s, p, n); t[i].key == t[k].key ==> t[j].key == t[i].key
  {
    var i', j', k' := if i < p then i else i - 1, if j < p then j else j - 1, if k < p then k else k - 1;
    var t := PutIn(s, p, n);
    assert i != p ==> t[i] == s[i'];
    assert j != p ==> t[j] == s[j'];
    assert k != p ==> t[k] == s[k'];
  }

  /** All chains of the table, one per bucket. */
  ghost predicate Table(hash: int -> nat, chains: seq<seq<HashNode>>) {
    && |chains| > 0
    && forall b :: 0 <= b < |chains| ==>
              Home(hash, |chains|, chains[b], b) && Grouped(chains[b]) && NoRepeats(chains[b])
  }

  ghost predicate Absent(chains: seq<seq<HashNode>>, n: HashNode) {
    forall b :: 0 <= b < |chains| ==> n !in chains[b]
  }

  lemma TableWith(hash: int -> nat, chains: seq<seq<HashNode>>, n: HashNode, b: nat)
    requires Table(hash, chains) && Absent(chains, n) && b == hash(n.key) % |chains|
    ensures b < |chains| && Place(chains[b], n.key) <= |chains[b]|
    ensures Table(hash, chains[b := PutIn(chains[b], Place(chains[b], n.key), n)])
  {
    PlacedGrouped(chains[b], n);
    PlacedHome(hash, |chains|, chains[b], b, Place(chains[b], n.key), n);
    hide Grouped, Home, Place, PutIn, NoRepeats;
  }

  lemma PlacedHome(hash: int -> nat, m: nat, s: seq<HashNode>, b: nat, i: nat, n: HashNode)
    requires m > 0 && i <= |s| && n !in s && hash(n.key) % m == b
    ensures Home(hash, m, s, b) ==> Home(hash, m, PutIn(s, i, n), b)
    ensures NoRepeats(s) ==> NoRepeats(PutIn(s, i, n))
  {
  }

  lemma TableWithout(hash: int -> nat, chains: seq<seq<HashNode>>, b: nat, i: nat)
    requires Table(hash, chains) && b < |chains| && i < |chains[b]|
    ensures Table(hash, chains[b := Dropped(chains[b], i)])
  {
    ShorterChain(hash, |chains|, chains[b], b, i);
    hide Grouped, Home, NoRepeats;
  }

  lemma ShorterChain(hash: int -> nat, m: nat, s: seq<HashNode>, b: nat, i: nat)
    requires m > 0 && i < |s| && Home(hash, m, s, b) && Grouped(s) && NoRepeats(s)
    ensures var t := Dropped(s, i); Home(hash, m, t, b) && Grouped(t) && NoRepeats(t)
  {
    var t := Dropped(s, i);
    forall x, y, z | 0 <= x < y < z < |t| && t[x].key == t[z].key
      ensures t[y].key == t[x].key
    {
      var x', y', z' := if x < i then x else x + 1, if y < i then y else y + 1, if z < i then z else z + 1;
      assert t[x] == s[x'] && t[y] == s[y'] && t[z] == s[z'];
    }
  }

  /** The nodes in iteration order: bucket by bucket. */
  function Flat(chains: seq<seq<HashNode>>): seq<HashNode> {
    if chains == [] then [] else Flat(chains[..|chains| - 1]) + chains[|chains| - 1]
  }

  /** What the nodes hold. */
  function Pairs(s: seq<HashNode>): (p: seq<(int, int)>)
    ensures |p| == |s| && forall i :: 0 <= i < |s| ==> p[i] == (s[i].key, s[i].value)
  {
    seq(|s|, i requires 0 <= i < |s| => (s[i].key, s[i].value))
  }

  /** The contents of the table, order forgotten. */
  function Bag(chains: seq<seq<HashNode>>): multiset<(int, int)> {
    if chains == [] then multiset{} else Bag(chains[..|chains| - 1]) + multiset(Pairs(chains[|chains| - 1]))
  }

  lemma {:induction false} BagOfFlat(chains: seq<seq<HashNode>>)
    ensures multiset(Pairs(Flat(chains))) == Bag(chains) && |Bag(chains)| == |Flat(chains)|
  {
    if chains != [] {
      var z := |chains| - 1;
      BagOfFlat(chains[..z]);
      assert Pairs(Flat(chains[..z]) + chains[z]) == Pairs(Flat(chains[..z])) + Pairs(chains[z]);
    }
  }

  lemma {:induction false} BagUpdate(chains: seq<seq<HashNode>>, b: nat, s: seq<HashNode>)
    requires b < |chains|
    ensures Bag(chains[b := s]) + multiset(Pairs(chains[b])) == Bag(chains) + multiset(Pairs(s))
  {
    var z, c := |chains| - 1, chains[b := s];
    var front, front' := Bag(chains[..z]), Bag(c[..z]);
    assert Bag(chains) == front + multiset(Pairs(chains[z])) && Bag(c) == front' + multiset(Pairs(c[z]));
    if b < z {
      BagUpdate(chains[..z], b, s);
      assert c[..z] == chains[..z][b := s];
      hide Bag, Pairs;
      Shifted(front', multiset(Pairs(chains[b])), front, multiset(Pairs(s)), multiset(Pairs(chains[z])));
    } else {
      assert c[..z] == chains[..z];
    }
  }

  /** One more node is one more pair. */
  lemma BagWith(chains: seq<seq<HashNode>>, b: nat, i: nat, n: HashNode)
    requires b < |chains| && i <= |chains[b]|
    ensures Bag(chains[b := PutIn(chains[b], i, n)]) == Bag(chains) + multiset{(n.key, n.value)}
    ensures |Flat(chains[b := PutIn(chains[b], i, n)])| == |Flat(chains)| + 1
  {
    var s, t := chains[b], PutIn(chains[b], i, n);
    BagUpdate(chains, b, t);
    BagOfFlat(chains);
    BagOfFlat(chains[b := t]);
    hide Bag, Flat;
    PairsWith(s, i, n);
    hide Pairs, PutIn;
    SameSum(Bag(chains[b := t]), multiset(Pairs(s)), Bag(chains), multiset{(n.key, n.value)});
  }

  lemma PairsWith(s: seq<HashNode>, i: nat, n: HashNode)
    requires i <= |s|
    ensures multiset(Pairs(PutIn(s, i, n))) == multiset(Pairs(s)) + multiset{(n.key, n.value)}
  {
    var p, q := Pairs(s[..i]), Pairs(s[i..]);
    assert Pairs(s) == p + q && Pairs(PutIn(s, i, n)) == p + [(n.key, n.value)] + q;
  }

  lemma BagWithout(chains: seq<seq<HashNode>>, b: nat, i: nat)
    requires b < |chains| && i < |chains[b]|
    ensures var n, c := chains[b][i], chains[b := Dropped(chains[b], i)];
            Bag(c) + multiset{(n.key, n.value)} == Bag(chains) && |Flat(c)| + 1 == |Flat(chains)|
  {
    var t := Dropped(chains[b], i);
    var c := chains[b := t];
    BagWith(c, b, i, chains[b][i]);
    assert PutIn(t, i, chains[b][i]) == chains[b];
    assert c[b := chains[b]] == chains;
  }

  lemma SameSum<T>(a: multiset<T>, p: multiset<T>, c: multiset<T>, e: multiset<T>)
    requires a + p == c + (p + e)
    ensures a == c + e
  {
    assert (a + p) - p == a && (c + (p + e)) - p == c + e;
  }

  lemma Shifted<T>(a: multiset<T>, b: multiset<T>, c: multiset<T>, d: multiset<T>, z: multiset<T>)
    requires a + b == c + d
    ensures (a + z) + b == (c + z) + d
  {
    assert (a + z) + b == (a + b) + z && (c + z) + d == (c + d) + z;
  }

  lemma {:induction false} FlatEmpty(chains: seq<seq<HashNode>>)
    requires forall b :: 0 <= b < |chains| ==> chains[b] == []
    ensures Flat(chains) == []
  {
    if chains != [] {
      FlatEmpty(chains[..|chains| - 1]);
    }
  }

  /** The place of chains[b][i] in iteration order. */
  function FlatIndex(chains: seq<seq<HashNode>>, b: nat, i: nat): nat
    requires b <= |chains|
  {
    |Flat(chains[..b])| + i
  }

  lemma {:induction false} FlatAt(chains: seq<seq<HashNode>>, b: nat, i: nat)
    requires b < |chains| && i < |chains[b]|
    ensures FlatIndex(chains, b, i) < |Flat(chains)| && Flat(chains)[FlatIndex(chains, b, i)] == chains[b][i]
    decreases |chains|
  {
    var z := |chains| - 1;
    if b < z {
      FlatAt(chains[..z], b, i);
      assert chains[..z][..b] == chains[..b];
    }
  }

  lemma FlatNextBucket(chains: seq<seq<HashNode>>, b: nat)
    requires b < |chains|
    ensures FlatIndex(chains, b + 1, 0) == FlatIndex(chains, b, |chains[b]|)
  {
    assert chains[..b + 1][..b] == chains[..b];
  }

  lemma FlatEnd(chains: seq<seq<HashNode>>)
    ensures FlatIndex(chains, |chains|, 0) == |Flat(chains)|
  {
    assert chains[..|chains|] == chains;
  }

  lemma {:induction false} FlatMonotone(chains: seq<seq<HashNode>>, b: nat, c: nat)
    requires b <= c <= |chains|
    ensures FlatIndex(chains, b, 0) <= FlatIndex(chains, c, 0)
    decreases c - b
  {
    if b < c {
      FlatNextBucket(chains, c - 1);
      FlatMonotone(chains, b, c - 1);
    }
  }

  /** Every place in iteration order is a place in some chain. */
  lemma {:induction false} FlatInverse(chains: seq<seq<HashNode>>, x: nat) returns (b: nat, i: nat)
    requires x < |Flat(chains)|
    ensures b < |chains| && i < |chains[b]| && FlatIndex(chains, b, i) == x && Flat(chains)[x] == chains[b][i]
    decreases |chains|
  {
    var z := |chains| - 1;
    if x < |Flat(chains[..z])| {
      b, i := FlatInverse(chains[..z], x);
      assert chains[..z][..b] == chains[..b];
    } else {
      b, i := z, x - |Flat(chains[..z])|;
    }
  }
}
