// The nodes of the circular doubly linked list of dbase/stl/list.h, and moving a stretch of them.

module ListNodes {
  import opened StableOrder

  class Node {
    var prev: Node
    var next: Node
    const item: Item

    constructor (item: Item)
      ensures this.item == item && prev == this && next == this
    {
      this.item := item;
      prev, next := this, this;
    }
  }

  /** No node twice, except that the ends may be one node: the stretch is then the whole ring. */
  predicate Simple(p: seq<Node>) {
    forall i, j :: 0 <= i < j < |p| && p[i] == p[j] ==> i == 0 && j == |p| - 1
  }

  /** Neighbours in `p` point at each other. */
  predicate Path(p: seq<Node>)
    reads set i | 0 <= i < |p| - 1 :: p[i]`next, set i | 1 <= i < |p| :: p[i]`prev
  {
    forall i :: 0 <= i < |p| - 1 ==> p[i].next == p[i + 1] && p[i + 1].prev == p[i]
  }

  /** The nodes between the ends. */
  function Inner(p: seq<Node>): seq<Node>
    requires |p| >= 2
  {
    p[1..|p| - 1]
  }

  function NodeSet(p: seq<Node>): set<Node>
    requires |p| >= 2
  {
    set n | n in Inner(p)
  }

  function Items(p: seq<Node>): (s: seq<Item>)
    ensures |s| == |p| && forall i :: 0 <= i < |p| ==> s[i] == p[i].item
  {
    seq(|p|, i requires 0 <= i < |p| => p[i].item)
  }

  lemma PathConcat(p: seq<Node>, q: seq<Node>)
    requires p != [] && q != []
    ensures Path(p + q) <==> Path(p) && Path(q) && p[|p| - 1].next == q[0] && q[0].prev == p[|p| - 1]
  {
    var r := p + q;
    if Path(r) {
      assert r[|p| - 1].next == r[|p|];
      assert forall i :: 0 <= i < |p| ==> p[i] == r[i];
      assert forall i :: 0 <= i < |q| ==> q[i] == r[|p| + i];
    }
  }

  /** `p` without p[c..d]. */
  function Without<T>(p: seq<T>, c: nat, d: nat): seq<T>
    requires c <= d <= |p|
  {
    p[..c] + p[d..]
  }

  /** `r` with `s` put in before r[a]. */
  function With<T>(r: seq<T>, a: nat, s: seq<T>): seq<T>
    requires a <= |r|
  {
    r[..a] + s + r[a..]
  }

  /** unlink_nodes of p[c..d]. */
  method UnlinkNodes(first: Node, last: Node, ghost p: seq<Node>, ghost c: nat, ghost d: nat)
    requires 1 <= c < d < |p| && first == p[c] && last == p[d - 1]
    requires Simple(p) && Path(p)
    modifies {p[c - 1]}`next, {p[d]}`prev
    ensures Path(Without(p, c, d)) && Path(p[c..d])
  {
    var before: Node, after: Node := first.prev, last.next;
    before.next := after;
    after.prev := before;
    assert Path(p[..c]) && Path(p[d..]);
    PathConcat(p[..c], p[d..]);
  }

  lemma LinksApart(r: seq<Node>, a: nat, s: seq<Node>)
    requires 1 <= a < |r| && s != [] && Simple(With(r, a, s))
    ensures forall i :: 0 <= i < |r| - 1 && i != a - 1 ==> r[i] != r[a - 1] && r[i] != s[|s| - 1]
    ensures forall i :: 1 <= i < |r| && i != a ==> r[i] != r[a] && r[i] != s[0]
    ensures forall i :: 0 <= i < |s| - 1 ==> s[i] != s[|s| - 1] && s[i] != r[a - 1]
    ensures forall i :: 1 <= i < |s| ==> s[i] != s[0] && s[i] != r[a]
    ensures r[a - 1] != s[|s| - 1] && r[a] != s[0]
  {
    var p := With(r, a, s);
    assert r[a - 1] == p[a - 1] && s[0] == p[a] && s[|s| - 1] == p[a + |s| - 1] && r[a] == p[a + |s|];
    assert forall i :: 0 <= i < a ==> r[i] == p[i];
    assert forall i :: 0 <= i < |s| ==> s[i] == p[a + i];
    assert forall i :: a <= i < |r| ==> r[i] == p[|s| + i];
  }

  /** link_nodes of the chain `s` before r[a]. */
  method LinkNodes(pos: Node, first: Node, last: Node, ghost r: seq<Node>, ghost a: nat, ghost s: seq<Node>)
    requires 1 <= a < |r| && pos == r[a] && s != [] && first == s[0] && last == s[|s| - 1]
    requires Path(r) && Path(s) && Simple(With(r, a, s))
    modifies {r[a - 1]}`next, first`prev, pos`prev, last`next
    ensures Path(With(r, a, s))
  {
    LinksApart(r, a, s);
    hide Simple;
    var before: Node := pos.prev;
    before.next := first;
    first.prev := before;
    pos.prev := last;
    last.next := pos;
    assert Path(r[..a]) && Path(s) && Path(r[a..]);
    PathConcat(r[..a], s);
    PathConcat(r[..a] + s, r[a..]);
  }

  /** `p` with p[c..d] moved in front of p[a]. */
  function Moved<T>(p: seq<T>, a: nat, c: nat, d: nat): seq<T>
    requires a <= c <= d <= |p|
  {
    With(Without(p, c, d), a, p[c..d])
  }

  lemma MovedParts<T>(p: seq<T>, a: nat, c: nat, d: nat)
    requires a <= c <= d <= |p|
    ensures Moved(p, a, c, d) == p[..a] + p[c..d] + p[a..c] + p[d..]
  {
  }

  /** The same nodes between the same ends, still without repetition. */
  ghost predicate Rearranged(p: seq<Node>, q: seq<Node>) {
    && |p| == |q| >= 2 && p[0] == q[0] && p[|p| - 1] == q[|q| - 1]
    && Simple(q) && multiset(Inner(q)) == multiset(Inner(p))
  }

  lemma MovedSimple(p: seq<Node>, a: nat, c: nat, d: nat)
    requires Simple(p) && 1 <= a <= c <= d < |p|
    ensures Simple(Moved(p, a, c, d))
  {
    var q := Moved(p, a, c, d);
    MovedParts(p, a, c, d);
    forall i, j | 0 <= i < j < |q| && q[i] == q[j]
      ensures i == 0 && j == |q| - 1
    {
      var i', j' := MovedFrom(a, c, d, i), MovedFrom(a, c, d, j);
      assert q[i] == p[i'] && q[j] == p[j'] && i' != j';
    }
  }

  function MovedFrom(a: nat, c: nat, d: nat, i: nat): nat
    requires a <= c <= d
  {
    if a <= i < a + (d - c) then i + (c - a) else if a + (d - c) <= i < d then i - (d - c) else i
  }

  lemma MovedRearranged(p: seq<Node>, a: nat, c: nat, d: nat)
    requires Simple(p) && 1 <= a <= c <= d < |p|
    ensures Rearranged(p, Moved(p, a, c, d))
  {
    hide Simple, Moved, Inner;
    MovedSimple(p, a, c, d);
    MovedParts(p, a, c, d);
    FourStretches(p, a, c, d);
    OfFour(p[..a], p[c..d], p[a..c], p[d..]);
    OfFour(p[..a], p[a..c], p[c..d], p[d..]);
    SwapMiddle(p[..a][1..], p[c..d], p[a..c], p[d..][..|p| - d - 1]);
  }

  lemma FourStretches<T>(p: seq<T>, a: nat, c: nat, d: nat)
    requires a <= c <= d <= |p|
    ensures p == p[..a] + p[a..c] + p[c..d] + p[d..]
  {
  }

  lemma OfFour(w: seq<Node>, x: seq<Node>, y: seq<Node>, z: seq<Node>)
    requires w != [] && z != []
    ensures var q := w + x + y + z;
            && |q| == |w| + |x| + |y| + |z| && q[0] == w[0] && q[|q| - 1] == z[|z| - 1]
            && Inner(q) == w[1..] + x + y + z[..|z| - 1]
  {
  }

  lemma SwapMiddle<T>(w: seq<T>, x: seq<T>, y: seq<T>, z: seq<T>)
    ensures multiset(w + x + y + z) == multiset(w + y + x + z)
  {
  }

  /** Unlinks p[c..d] and links it in again before p[a]. */
  method MoveBefore(pos: Node, first: Node, last: Node, ghost p: seq<Node>, ghost a: nat, ghost c: nat, ghost d: nat)
    requires 1 <= a < c < d < |p| && pos == p[a] && first == p[c] && last == p[d - 1]
    requires Simple(p) && Path(p)
    modifies {p[a - 1], p[c - 1], p[d - 1]}`next, {p[a], p[c], p[d]}`prev
    ensures Path(Moved(p, a, c, d))
  {
    hide Simple, Path;
    UnlinkNodes(first, last, p, c, d);
    ghost var r := Without(p, c, d);
    assert r[a] == p[a] && r[a - 1] == p[a - 1];
    MovedSimple(p, a, c, d);
    LinkNodes(pos, first, last, r, a, p[c..d]);
  }
}
