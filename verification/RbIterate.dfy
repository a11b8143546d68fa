// rb_tree_iterator_base: walking the nodes in key order through left, right and parent pointers.

module RbIterate {
  import opened RbShape
  import opened RbNodes
  import opened RbUnlink

  lemma {:induction false} Find(t: Shape, z: Node) returns (c: Hole, u: Shape)
    requires z in NodesOf(t)
    ensures Plug(c, u) == t && u.Bin? && u.n == z
  {
    if t.n == z {
      c, u := Top, t;
    } else {
      var side := if z in NodesOf(t.left) then L else R;
      c, u := Find(Sub(t, side), z);
      var base := In(Top, side, t.n, t.red, Sub(t, Other(side)));
      PlugStack(c, base, u);
      Rebuild(side, t);
      c := Stack(c, base);
    }
  }

  lemma {:induction false} OrderDistinct(t: Shape, i: nat, j: nat)
    requires Apart(t) && i < j < |InOrder(t)|
    ensures InOrder(t)[i] != InOrder(t)[j]
  {
    var l, r := InOrder(t.left), InOrder(t.right);
    assert InOrder(t) == l + [t.n] + r;
    if j < |l| {
      OrderDistinct(t.left, i, j);
    } else if i > |l| {
      OrderDistinct(t.right, i - |l| - 1, j - |l| - 1);
    } else {
      OrderNode(t.left, InOrder(t)[i]);
      OrderNode(t.right, InOrder(t)[j]);
    }
  }

  /** The place of the i-th node in the tree. */
  lemma Locate(whole: Shape, header: Node, all: set<Node>, i: nat) returns (c: Hole, t: Shape)
    requires At(Top, whole, header, all) && i < |InOrder(whole)|
    ensures At(c, t, header, all) && Plug(c, t) == whole && t.Bin? && t.n == InOrder(whole)[i]
    ensures i == |Before(c) + InOrder(t.left)|
    ensures Before(c) + InOrder(t.left) == InOrder(whole)[..i]
    ensures InOrder(t.right) + After(c) == InOrder(whole)[i + 1..]
  {
    var z := InOrder(whole)[i];
    OrderNode(whole, z);
    c, t := Find(whole, z);
    Whole(c, t, header, all);
    OrderAround(c, t);
    var b, a := Before(c) + InOrder(t.left), InOrder(t.right) + After(c);
    assert InOrder(whole) == b + [z] + a;
    if i < |b| {
      OrderDistinct(whole, i, |b|);
    } else if |b| < i {
      OrderDistinct(whole, |b|, i);
    }
  }

  /** The i-th node, or the header for the end position. */
  ghost function NodeAt(whole: Shape, header: Node, i: nat): Node
  {
    if i < |InOrder(whole)| then InOrder(whole)[i] else header
  }

  /** The test by which dec recognises the header: no node of the tree is a red grandchild of itself. */
  lemma NotTheHeader(c: Hole, t: Shape, header: Node, all: set<Node>)
    requires At(c, t, header, all) && t.Bin? && (c.Top? ==> !t.red)
    ensures t.n.parent != null && t.n.parent.parent != null && !(t.n.parent.parent == t.n && t.n.red)
  {
    Near(c, t, header, all);
    if c.In? {
      AroundMember(c);
    }
  }

  lemma AroundMember(c: Hole)
    requires c.In?
    ensures c.n in NodesAround(c) && (c.up.In? ==> c.up.n in NodesAround(c))
  {
  }

  lemma TopIsRoot(whole: Shape, c: Hole, t: Shape)
    requires Plug(c, t) == whole && c.Top?
    ensures t == whole
  {
  }

  /** The last node before a subtree with an empty left part: found by climbing until the climb comes from the right. */
  method ClimbBack(node0: Node, header: Node, ghost c0: Hole, ghost t0: Shape, ghost all: set<Node>) returns (y: Node)
    requires At(c0, t0, header, all) && t0.Bin? && t0.n == node0 && Before(c0) != []
    ensures y == Before(c0)[|Before(c0)| - 1] && y.right != null
  {
    hide At, InOrder, Before, After;
    var node := node0;
    ghost var c, t := c0, t0;
    Near(c, t, header, all);
    y := node.parent;
    Inside(c);
    while node == y.left
      invariant At(c, t, header, all) && t.Bin? && t.n == node && Before(c) == Before(c0) && c.In? && y == c.n
      decreases c
    {
      Near(c, t, header, all);
      Inside(c);
      Up(c, t, header, all);
      MkSub(c.side, t, c.n, c.red, c.other);
      c, t := c.up, Mk(c.side, t, c.n, c.red, c.other);
      Near(c, t, header, all);
      node := y;
      y := y.parent;
      Inside(c);
    }
    Near(c, t, header, all);
    Inside(c);
  }

  lemma Inside(c: Hole)
    ensures c.Top? ==> Before(c) == [] && After(c) == []
    ensures c.In? && c.side == L ==> Before(c) == Before(c.up) && After(c) != [] && After(c)[0] == c.n
    ensures c.In? && c.side == R ==> After(c) == After(c.up) && Before(c) != [] && Before(c)[|Before(c)| - 1] == c.n
  {
  }

  /** rb_tree_iterator_base::dec: the node before position `i`. */
  method Dec(node: Node, header: Node, ghost whole: Shape, ghost all: set<Node>, ghost i: nat) returns (r: Node)
    requires At(Top, whole, header, all) && RedBlack(whole) && header.red
    requires header.right == End(R, InOrder(whole), header)
    requires 0 < i <= |InOrder(whole)| && node == NodeAt(whole, header, i)
    ensures r == NodeAt(whole, header, i - 1)
    ensures i < |InOrder(whole)| ==> (node.left != null <==> r.right == null)
  {
    ghost var c, t;
    if i < |InOrder(whole)| {
      c, t := Locate(whole, header, all, i);
      if c.Top? {
        TopIsRoot(whole, c, t);
      }
      NotTheHeader(c, t, header, all);
      InnerParts(c, t, header, all);
    } else {
      Near(Top, whole, header, all);
    }
    hide At, InOrder, Before, After, Linked, Plug, NodesOf, RedBlack;
    if node.parent.parent == node && node.red {
      r := node.right;
    } else if node.left != null {
      var last, _, _ := Extreme(R, node.left, t.left, node);
      KidIsField(last);
      r := last;
      assert InOrder(whole)[i - 1] == InOrder(whole)[..i][i - 1];
    } else {
      r := ClimbBack(node, header, c, t, all);
      assert InOrder(whole)[i - 1] == InOrder(whole)[..i][i - 1];
    }
  }

  lemma KidIsNotHolder(c: Hole, t: Shape, header: Node, all: set<Node>)
    requires At(c, t, header, all) && t.Bin?
    ensures t.n.right != Holder(c, header)
  {
    if t.right.Bin? {
      assert t.right.n in NodesOf(t.right);
    }
  }

  /** The first node after a subtree with an empty right part, or the header. The climb may run once past the
      root, when the root is the last node and the header's right pointer leads back to it. */
  method ClimbOn(node0: Node, header: Node, ghost whole: Shape, ghost c0: Hole, ghost t0: Shape, ghost all: set<Node>)
    returns (r: Node)
    requires At(c0, t0, header, all) && t0.Bin? && t0.n == node0 && t0.right.Nil? && Plug(c0, t0) == whole
    requires At(Top, whole, header, all) && header.right == End(R, InOrder(whole), header)
    ensures r == if After(c0) == [] then header else After(c0)[0]
  {
    hide At, InOrder, Before, After, End;
    var node := node0;
    ghost var c, t, passed := c0, t0, false;
    Near(c, t, header, all);
    Near(Top, whole, header, all);
    Whole(c, t, header, all);
    var y := node.parent;
    Inside(c);
    while y.right == node
      invariant y != null
      invariant !passed ==>
                At(c, t, header, all) && t.Bin? && t.n == node && After(c) == After(c0) && y == Holder(c, header)
      invariant At(Top, whole, header, all) && whole.Bin?
      invariant !passed && c.Top? ==> header.parent == node
      invariant passed ==> node == header && y == header.parent == header.right && After(c0) == []
      decreases if passed then 0 else Depth(c) + 1
    {
      KidIsNotHolder(Top, whole, header, all);
      Near(Top, whole, header, all);
      assert !passed;
      Near(c, t, header, all);
      Inside(c);
      if c.In? {
        Up(c, t, header, all);
        MkSub(c.side, t, c.n, c.red, c.other);
        c, t := c.up, Mk(c.side, t, c.n, c.red, c.other);
        Near(c, t, header, all);
        Inside(c);
      } else {
        passed := true;
      }
      node := y;
      y := y.parent;
    }
    if !passed {
      KidIsNotHolder(c, t, header, all);
      Near(c, t, header, all);
      Inside(c);
    }
    if node.right != y {
      node := y;
    }
    r := node;
  }

  /** rb_tree_iterator_base::inc: the node after position `i`, or the header. */
  method Inc(node: Node, header: Node, ghost whole: Shape, ghost all: set<Node>, ghost i: nat) returns (r: Node)
    requires At(Top, whole, header, all) && header.right == End(R, InOrder(whole), header)
    requires i < |InOrder(whole)| && node == InOrder(whole)[i]
    ensures r == NodeAt(whole, header, i + 1)
  {
    ghost var c, t := Locate(whole, header, all, i);
    InnerParts(c, t, header, all);
    hide At, InOrder, Before, After, Linked, Plug, NodesOf;
    if node.right != null {
      var first, _, _ := Extreme(L, node.right, t.right, node);
      r := first;
      assert InOrder(whole)[i + 1..][0] == InOrder(whole)[i + 1];
    } else {
      NilOrder();
      assert InOrder(t.right) + After(c) == After(c);
      r := ClimbOn(node, header, whole, c, t, all);
      if After(c) != [] {
        assert InOrder(whole)[i + 1..][0] == InOrder(whole)[i + 1];
      }
    }
  }

  lemma PlugDown(c: Hole, t: Shape, side: Side)
    requires t.Bin?
    ensures Plug(In(c, side, t.n, t.red, Sub(t, Other(side))), Sub(t, side)) == Plug(c, t)
  {
    Rebuild(side, t);
  }

  lemma SidesOfIn(c: Hole, side: Side, n: Node, red: bool, o: Shape)
    ensures var d := In(c, side, n, red, o);
      if side == L then Before(d) == Before(c) && After(d) == [n] + InOrder(o) + After(c)
      else Before(d) == Before(c) + InOrder(o) + [n] && After(d) == After(c)
  {
  }

  lemma AroundIndex(s: seq<Node>, i: nat, b: seq<Node>, a: seq<Node>, o: seq<Node>)
    requires i < |s|
    ensures s[i..] == [s[i]] + s[i + 1..] && s[..i + 1] == s[..i] + [s[i]]
    ensures [s[i]] + o + a == [s[i]] + (o + a)
    ensures b + [] == b && [] + a == a
  {
  }

  /** The free hole to one side of the i-th node. */
  lemma HoleBeside(whole: Shape, header: Node, all: set<Node>, i: nat, side: Side) returns (c: Hole)
    requires At(Top, whole, header, all) && i < |InOrder(whole)|
    requires Kid(InOrder(whole)[i], side) == null
    ensures At(c, Nil, header, all) && Plug(c, Nil) == whole && c.In? && c.side == side && c.n == InOrder(whole)[i]
    ensures var k := if side == L then i else i + 1; Before(c) == InOrder(whole)[..k] && After(c) == InOrder(whole)[k..]
  {
    var c0, t := Locate(whole, header, all, i);
    Near(c0, t, header, all);
    var o := Sub(t, Other(side));
    hide At, Before, After, Plug;
    c := In(c0, side, t.n, t.red, o);
    Down(c0, t, side, header, all);
    PlugDown(c0, t, side);
    SidesOfIn(c0, side, t.n, t.red, o);
    NilOrder();
    hide InOrder;
    var s := InOrder(whole);
    AroundIndex(s, i, Before(c0), After(c0), InOrder(o));
  }

  lemma EmptyOrder(t: Shape)
    ensures InOrder(t) == [] <==> t.Nil?
  {
  }

  /** The node at an end of the list has no child on that side. */
  lemma EndIsFree(whole: Shape, header: Node, all: set<Node>, side: Side)
    requires At(Top, whole, header, all) && InOrder(whole) != []
    ensures Kid(End(side, InOrder(whole), header), side) == null
  {
    var i := if side == L then 0 else |InOrder(whole)| - 1;
    var c, t := Locate(whole, header, all, i);
    Near(c, t, header, all);
    EmptyOrder(Sub(t, side));
  }
}
