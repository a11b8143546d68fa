// The nodes of dbase::stl::rb_tree in memory: left, right and parent pointers and a header node.

module RbNodes {
  import opened RbShape

  class Node {
    var parent: Node?
    var left: Node?
    var right: Node?
    var red: bool
    const key: int

    constructor (key: int)
      ensures this.key == key && parent == left == right == null
    {
      this.key := key;
      parent, left, right, red := null, null, null, false;
    }
  }

  function Kid(n: Node, side: Side): Node?
    reads n`left, n`right
  {
    if side == L then n.left else n.right
  }

  method SetKid(n: Node, side: Side, v: Node?)
    modifies n`left, n`right
    ensures Kid(n, side) == v && Kid(n, Other(side)) == old(Kid(n, Other(side)))
  {
    if side == L { n.left := v; } else { n.right := v; }
  }

  type Shape = Tree<Node>
  type Hole = Ctx<Node>

  ghost function NodesOf(t: Shape): set<Node>
  {
    if t.Nil? then {} else NodesOf(t.left) + {t.n} + NodesOf(t.right)
  }

  ghost function NodesAround(c: Hole): set<Node>
  {
    if c.Top? then {} else NodesAround(c.up) + {c.n} + NodesOf(c.other)
  }

  /** No node occurs twice. */
  ghost predicate Apart(t: Shape)
  {
    t.Bin? ==>
      && t.n !in NodesOf(t.left) && t.n !in NodesOf(t.right) && NodesOf(t.left) !! NodesOf(t.right)
      && Apart(t.left) && Apart(t.right)
  }

  ghost predicate ApartAround(c: Hole)
  {
    c.In? ==>
      && c.n !in NodesOf(c.other) && c.n !in NodesAround(c.up) && NodesOf(c.other) !! NodesAround(c.up)
      && Apart(c.other) && ApartAround(c.up)
  }

  function Root(t: Shape): Node?
  {
    if t.Nil? then null else t.n
  }

  function Holder(c: Hole, header: Node): Node
  {
    if c.Top? then header else c.n
  }

  /** The nodes of `t` point at each other as `t` says, the topmost one hanging from `p`. */
  ghost predicate Linked(t: Shape, p: Node)
    reads NodesOf(t)
  {
    t.Bin? ==>
      && t.n.parent == p && t.n.red == t.red
      && t.n.left == Root(t.left) && t.n.right == Root(t.right)
      && Linked(t.left, t.n) && Linked(t.right, t.n)
  }

  /** The nodes around the hole point at each other as `c` says, with `hole` in the hole. */
  ghost predicate LinkedAround(c: Hole, hole: Node?, header: Node)
    reads NodesAround(c), header`parent
  {
    if c.Top? then header.parent == hole
    else
      && Kid(c.n, c.side) == hole && Kid(c.n, Other(c.side)) == Root(c.other)
      && c.n.red == c.red && c.n.parent == Holder(c.up, header)
      && Linked(c.other, c.n)
      && LinkedAround(c.up, c.n, header)
  }

  /** The tree `t` hangs in the hole of `c`; together they consist of the nodes `all`. */
  ghost predicate At(c: Hole, t: Shape, header: Node, all: set<Node>)
    reads all, header`parent
  {
    && NodesOf(t) + NodesAround(c) == all && header !in all
    && NodesOf(t) !! NodesAround(c) && Apart(t) && ApartAround(c)
    && Linked(t, Holder(c, header)) && LinkedAround(c, Root(t), header)
  }

  /** `t` after its root has been rotated towards `side`. */
  function Rotated(side: Side, t: Shape): Shape
    requires t.Bin? && Sub(t, Other(side)).Bin?
  {
    var y := Sub(t, Other(side));
    Mk(side, Mk(side, Sub(t, side), t.n, t.red, Sub(y, side)), y.n, y.red, Sub(y, Other(side)))
  }

  lemma RotatedNodes(side: Side, t: Shape)
    requires t.Bin? && Sub(t, Other(side)).Bin? && Apart(t)
    ensures NodesOf(Rotated(side, t)) == NodesOf(t) && Apart(Rotated(side, t))
  {
  }

  lemma RotatedOrder(side: Side, t: Shape)
    requires t.Bin? && Sub(t, Other(side)).Bin?
    ensures InOrder(Rotated(side, t)) == InOrder(t)
  {
  }

  lemma RotatedIs(side: Side, t: Shape)
    requires t.Bin? && Sub(t, Other(side)).Bin?
    ensures var y := Sub(t, Other(side));
      Rotated(side, t) == Mk(side, Mk(side, Sub(t, side), t.n, t.red, Sub(y, side)), y.n, y.red, Sub(y, Other(side)))
  {
  }

  lemma RecolouredOrder(t: Shape, red: bool)
    requires t.Bin?
    ensures InOrder(t.(red := red)) == InOrder(t)
    ensures forall s: Side :: Sub(t.(red := red), s) == Sub(t, s)
  {
  }

  /** Below the top, the root of the whole tree is not the node in the hole. */
  lemma {:induction false} RootIsElsewhere(c: Hole, hole: Node?, header: Node)
    requires LinkedAround(c, hole, header) && c.In?
    ensures header.parent in NodesAround(c)
  {
    if c.up.In? {
      RootIsElsewhere(c.up, c.n, header);
    }
  }

  lemma MkLinked(side: Side, near: Shape, n: Node, red: bool, far: Shape, p: Node)
    ensures Linked(Mk(side, near, n, red, far), p) <==>
      && n.parent == p && n.red == red
      && Kid(n, side) == Root(near) && Kid(n, Other(side)) == Root(far)
      && Linked(near, n) && Linked(far, n)
    ensures Root(Mk(side, near, n, red, far)) == n
    ensures NodesOf(Mk(side, near, n, red, far)) == NodesOf(near) + {n} + NodesOf(far)
    ensures Apart(Mk(side, near, n, red, far)) <==>
      && n !in NodesOf(near) && n !in NodesOf(far) && NodesOf(near) !! NodesOf(far)
      && Apart(near) && Apart(far)
  {
  }

  lemma Rebuild(side: Side, t: Shape)
    requires t.Bin?
    ensures Mk(side, Sub(t, side), t.n, t.red, Sub(t, Other(side))) == t
  {
  }

  lemma TopIn(t: Shape, c: Hole)
    ensures t.Bin? ==> t.n in NodesOf(t)
    ensures c.In? ==> c.n in NodesAround(c)
  {
  }

  /** Gives the top of the subtree `t`, if there is one, the parent `p`. */
  method HangFrom(v: Node?, p: Node, ghost q: Node, ghost t: Shape)
    requires v == Root(t) && Linked(t, q) && Apart(t)
    modifies if v == null then {} else {v}
    ensures Linked(t, p)
    ensures v != null ==> v.left == old(v.left) && v.right == old(v.right) && v.red == old(v.red)
  {
    if v != null {
      v.parent := p;
    }
  }

  /** Puts `y` into the hole of `c` that `x` fills: the root slot of the header, or a child slot of x's parent. */
  method Replace(x: Node, y: Node?, header: Node, ghost c: Hole)
    requires LinkedAround(c, x, header) && x !in NodesAround(c) && header !in NodesAround(c) && header != x
    requires ApartAround(c)
    requires x.parent == Holder(c, header)
    modifies if c.In? then {c.n} else {}, header`parent
    ensures LinkedAround(c, y, header)
    ensures c.In? ==> c.n.parent == old(c.n.parent) && c.n.red == old(c.n.red)
  {
    if c.In? {
      RootIsElsewhere(c, x, header);
    }
    if x == header.parent {
      header.parent := y;
    } else if x == x.parent.left {
      x.parent.left := y;
    } else {
      x.parent.right := y;
    }
  }

  /** The first half of a rotation: the inner child of `y` becomes a child of `x`. */
  method PassInnerChild(side: Side, x: Node, y: Node, ghost a: Shape, ghost b: Shape, ghost d: Shape)
    requires x != y && x !in NodesOf(a) + NodesOf(b) + NodesOf(d) && y !in NodesOf(b)
    requires NodesOf(b) !! NodesOf(a) && NodesOf(b) !! NodesOf(d) && Apart(b)
    requires Linked(a, x) && Linked(b, y) && Linked(d, y) && Kid(y, side) == Root(b)
    modifies x`left, x`right, if b.Nil? then {} else {b.n}
    ensures Linked(a, x) && Linked(b, x) && Linked(d, y)
    ensures Kid(x, side) == old(Kid(x, side)) && Kid(x, Other(side)) == Root(b)
  {

    hide Linked, NodesOf, Apart, Kid;
    assert allocated(NodesOf(a)) && allocated(NodesOf(b)) && allocated(NodesOf(d));
    TopIn(b, Top);
    SetKid(x, Other(side), Kid(y, side));
    HangFrom(Kid(y, side), x, y, b);
  }

  /** The second half: `y` takes the place of `x`, which becomes its child. */
  method TakePlace(side: Side, x: Node, y: Node, header: Node, ghost c: Hole, ghost a: Shape, ghost b: Shape,
          ghost d: Shape)
    requires x != y && {x, y, header} !! NodesOf(a) + NodesOf(b) + NodesOf(d) && {x, y, header} !! NodesAround(c)
    requires x != header && y != header && NodesAround(c) !! NodesOf(a) + NodesOf(b) + NodesOf(d) && ApartAround(c)
    requires Linked(a, x) && Linked(b, x) && Linked(d, y)
    requires LinkedAround(c, x, header) && x.parent == Holder(c, header)
    modifies y`left, y`right, y`parent, x`parent, if c.In? then {c.n} else {}, header`parent
    ensures Linked(a, x) && Linked(b, x) && Linked(d, y) && LinkedAround(c, y, header)
    ensures x.parent == y && y.parent == Holder(c, header)
    ensures Kid(y, side) == x && Kid(y, Other(side)) == old(Kid(y, Other(side)))
  {
    hide Linked, LinkedAround, NodesOf, NodesAround, ApartAround, Kid;
    TopIn(Nil, c);
    assert allocated(NodesOf(a)) && allocated(NodesOf(b)) && allocated(NodesOf(d)) && allocated(NodesAround(c));
    y.parent := x.parent;
    Replace(x, y, header, c);
    SetKid(y, side, x);
    x.parent := y;
  }

  method Rotate(side: Side, x: Node, header: Node, ghost c: Hole, ghost t: Shape, ghost all: set<Node>)
    requires At(c, t, header, all) && t.Bin? && t.n == x && Sub(t, Other(side)).Bin?
    modifies all, header`parent
    ensures At(c, Rotated(side, t), header, all)
  {
    hide Linked, LinkedAround, NodesOf, NodesAround, Apart, ApartAround, Mk, Kid;
    RotatedNodes(side, t);
    ghost var ty := Sub(t, Other(side));
    ghost var a, b, d := Sub(t, side), Sub(ty, side), Sub(ty, Other(side));
    Rebuild(side, t);
    Rebuild(side, ty);
    MkLinked(side, a, x, t.red, ty, Holder(c, header));
    MkLinked(side, b, ty.n, ty.red, d, x);
    TopIn(b, c);
    assert allocated(NodesOf(a)) && allocated(NodesOf(b)) && allocated(NodesOf(d)) && allocated(NodesAround(c));
    var y := Kid(x, Other(side));
    PassInnerChild(side, x, y, a, b, d);
    TakePlace(side, x, y, header, c, a, b, d);
    MkLinked(side, a, x, t.red, b, y);
    MkLinked(side, Mk(side, a, x, t.red, b), y, ty.red, d, Holder(c, header));
  }

  // Changing the focus: the same nodes, seen from another hole.

  /** The focus may be taken one level up, and back. */
  lemma Up(c: Hole, t: Shape, header: Node, all: set<Node>)
    requires c.In?
    ensures At(c, t, header, all) <==> At(c.up, Mk(c.side, t, c.n, c.red, c.other), header, all)
  {
    hide Linked, NodesOf, Apart, Mk, Kid;
    MkLinked(c.side, t, c.n, c.red, c.other, Holder(c.up, header));
  }

  /** The hole that is left when the focus moves from `t` to its sibling. */
  function Opposite(c: Hole, t: Shape): Hole
    requires c.In?
  {
    In(c.up, Other(c.side), c.n, c.red, t)
  }

  lemma Across(c: Hole, t: Shape, header: Node, all: set<Node>)
    requires c.In?
    ensures At(c, t, header, all) <==> At(Opposite(c, t), c.other, header, all)
  {
    hide At;
    Up(c, t, header, all);
    Up(Opposite(c, t), c.other, header, all);
  }

  lemma Down(c: Hole, t: Shape, side: Side, header: Node, all: set<Node>)
    requires t.Bin?
    ensures At(c, t, header, all) <==> At(In(c, side, t.n, t.red, Sub(t, Other(side))), Sub(t, side), header, all)
  {
    hide At;
    Up(In(c, side, t.n, t.red, Sub(t, Other(side))), Sub(t, side), header, all);
    Rebuild(side, t);
  }

  /** What the node in the hole sees of its neighbours. */
  lemma Near(c: Hole, t: Shape, header: Node, all: set<Node>)
    requires At(c, t, header, all)
    ensures t.Bin? ==> t.n in all && t.n.parent == Holder(c, header) && t.n.red == t.red
    ensures t.Bin? ==> forall s: Side :: Kid(t.n, s) == Root(Sub(t, s))
    ensures Root(t) == header.parent <==> c.Top?
    ensures c.In? ==> c.n in all && c.n.red == c.red && c.n.parent == Holder(c.up, header)
    ensures c.In? ==> Kid(c.n, c.side) == Root(t) && Kid(c.n, Other(c.side)) == Root(c.other)
    ensures c.In? && (t.Bin? || c.other.Bin?) ==> Root(t) != Root(c.other)
    ensures c.In? && c.other.Bin? ==> c.other.n in all && c.other.n.red == c.other.red && c.other.n.parent == c.n
    ensures c.In? && c.other.Bin? ==> forall s: Side :: Kid(c.other.n, s) == Root(Sub(c.other, s))
  {
    if c.In? {
      RootIsElsewhere(c, Root(t), header);
    }
  }

  /** rb_tree_set_black and rb_tree_set_red, on the node in the hole. */
  method Paint(n: Node, red: bool, header: Node, ghost c: Hole, ghost t: Shape, ghost all: set<Node>)
    requires At(c, t, header, all) && t.Bin? && t.n == n
    modifies n`red
    ensures n.red == red && At(c, t.(red := red), header, all)
  {
    assert allocated(NodesOf(t.left)) && allocated(NodesOf(t.right)) && allocated(NodesAround(c));
    n.red := red;
    assert Linked(t.left, n) && Linked(t.right, n);
  }

  lemma SameOrder(c: Hole, t: Shape, t': Shape)
    requires InOrder(t) == InOrder(t')
    ensures InOrder(Plug(c, t)) == InOrder(Plug(c, t'))
  {
    InOrderPlug(c, t);
    InOrderPlug(c, t');
  }

  /** The whole tree, seen from the header. */
  lemma {:induction false} Whole(c: Hole, t: Shape, header: Node, all: set<Node>)
    ensures At(c, t, header, all) <==> At(Top, Plug(c, t), header, all)
    ensures t.Bin? ==> Plug(c, t).Bin?
    decreases c
  {
    if c.In? {
      hide At;
      Up(c, t, header, all);
      Whole(c.up, Mk(c.side, t, c.n, c.red, c.other), header, all);
    }
  }

  // Contexts stacked on one another, for paths down into a subtree.

  /** The context `e` with `base` in place of its top. */
  function Stack(e: Hole, base: Hole): Hole
  {
    if e.Top? then base else In(Stack(e.up, base), e.side, e.n, e.red, e.other)
  }

  lemma {:induction false} Deep(e: Hole, base: Hole, t: Shape, header: Node, all: set<Node>)
    ensures At(Stack(e, base), t, header, all) <==> At(base, Plug(e, t), header, all)
    ensures Holder(Stack(e, base), header) == if e.Top? then Holder(base, header) else e.n
    decreases e
  {
    if e.In? {
      hide At;
      Up(Stack(e, base), t, header, all);
      Deep(e.up, base, Mk(e.side, t, e.n, e.red, e.other), header, all);
    }
  }

  lemma {:induction false} PlugNodes(e: Hole, t: Shape)
    ensures NodesOf(Plug(e, t)) == NodesOf(t) + NodesAround(e)
    ensures Apart(Plug(e, t)) <==> Apart(t) && ApartAround(e) && NodesOf(t) !! NodesAround(e)
    decreases e
  {
    if e.In? {
      var u := Mk(e.side, t, e.n, e.red, e.other);
      MkNodes(e.side, t, e.n, e.red, e.other);
      PlugNodes(e.up, u);
    }
  }

  lemma MkNodes(side: Side, near: Shape, n: Node, red: bool, far: Shape)
    ensures NodesOf(Mk(side, near, n, red, far)) == NodesOf(near) + {n} + NodesOf(far)
    ensures Apart(Mk(side, near, n, red, far)) <==>
      && n !in NodesOf(near) && n !in NodesOf(far) && NodesOf(near) !! NodesOf(far)
      && Apart(near) && Apart(far)
  {
  }

  /** The nodes of `e`, a path hanging from `above`, point at each other as `e` says, with `hole` in the hole. */
  ghost predicate LinkedSpine(e: Hole, hole: Node?, above: Node)
    reads NodesAround(e)
  {
    e.In? ==>
      && Kid(e.n, e.side) == hole && Kid(e.n, Other(e.side)) == Root(e.other)
      && e.n.red == e.red && e.n.parent == Holder(e.up, above)
      && Linked(e.other, e.n)
      && LinkedSpine(e.up, e.n, above)
  }

  lemma {:induction false} PlugSpine(e: Hole, t: Shape, above: Node)
    ensures Linked(Plug(e, t), above) <==> Linked(t, Holder(e, above)) && LinkedSpine(e, Root(t), above)
    decreases e
  {
    if e.In? {
      hide Linked, NodesOf, NodesAround, Mk;
      PlugSpine(e.up, Mk(e.side, t, e.n, e.red, e.other), above);
      MkLinked(e.side, t, e.n, e.red, e.other, Holder(e.up, above));
    }
  }

  lemma {:induction false} PlugLinked(e: Hole, t: Shape, above: Node)
    requires Linked(Plug(e, t), above)
    ensures Linked(t, Holder(e, above))
    ensures e.In? ==> Kid(e.n, e.side) == Root(t) && e.n in NodesAround(e)
    decreases e
  {
    PlugNodes(e, t);
    if e.In? {
      PlugLinked(e.up, Mk(e.side, t, e.n, e.red, e.other), above);
      MkLinked(e.side, t, e.n, e.red, e.other, Holder(e.up, above));
    }
  }

  predicate AllOn(e: Hole, side: Side)
  {
    e.In? ==> e.side == side && AllOn(e.up, side)
  }

  lemma {:induction false} AllOnOrder(e: Hole)
    ensures AllOn(e, L) ==> Before(e) == []
    ensures AllOn(e, R) ==> After(e) == []
  {
    if e.In? {
      AllOnOrder(e.up);
    }
  }

  /** rb_tree_min and rb_tree_max: follows the `side` children to the end. */
  method Extreme(side: Side, x: Node, ghost t: Shape, ghost p: Node) returns (y: Node, ghost e: Hole, ghost rest: Shape)
    requires Linked(t, p) && t.Bin? && t.n == x
    ensures AllOn(e, side) && t == Plug(e, Mk(side, Nil, y, y.red, rest))
    ensures Kid(y, side) == null && Kid(y, Other(side)) == Root(rest)
    ensures InOrder(t) != [] && y == if side == L then InOrder(t)[0] else InOrder(t)[|InOrder(t)| - 1]
  {
    hide Linked, InOrder, Mk;
    y, e := x, Top;
    ghost var cur := t;
    while Kid(y, side) != null
      invariant Linked(t, p) && cur.Bin? && cur.n == y && AllOn(e, side) && t == Plug(e, cur)
      decreases cur
    {
      FocusLinked(side, e, cur, p);
      e := In(e, side, y, cur.red, Sub(cur, Other(side)));
      Rebuild(side, cur);
      y, cur := Kid(y, side), Sub(cur, side);
    }
    FocusLinked(side, e, cur, p);
    Rebuild(side, cur);
    rest := Sub(cur, Other(side));
    AllOnOrder(e);
    InOrderPlug(e, cur);
    MkInOrder(side, Nil, y, cur.red, rest);
    NilOrder();
  }

  lemma NilOrder()
    ensures InOrder<Node>(Nil) == []
  {
  }

  lemma FocusLinked(side: Side, e: Hole, cur: Shape, p: Node)
    requires Linked(Plug(e, cur), p) && cur.Bin?
    ensures Kid(cur.n, side) == Root(Sub(cur, side)) && Kid(cur.n, Other(side)) == Root(Sub(cur, Other(side)))
    ensures cur.n.red == cur.red && (Kid(cur.n, side) != null ==> Sub(cur, side).Bin? && Sub(cur, side) < cur)
  {
    PlugLinked(e, cur, p);
  }

  /** Hangs a node without children into an empty hole. */
  method FillHole(x: Node, node: Node, side: Side, header: Node, ghost c: Hole, ghost all: set<Node>)
    requires At(c, Nil, header, all) && x == Holder(c, header) && (c.In? ==> c.side == side)
    requires node !in all && node != header && node.left == null && node.right == null
    modifies node`parent, if c.In? then {x} else {}, header`parent
    ensures At(c, Bin(Nil, node, node.red, Nil), header, all + {node})
    ensures c.In? ==> header.parent == old(header.parent)
  {
    hide Linked, NodesOf, Apart;
    NilNodes();
    LeafNodes(node, x);
    TopIn(Nil, c);
    if c.In? {
      assert allocated(NodesAround(c.up)) && allocated(NodesOf(c.other));
    }
    node.parent := x;
    if x == header {
      header.parent := node;
    } else {
      if side == L { x.left := node; } else { x.right := node; }
      assert Linked(c.other, c.n) && LinkedAround(c.up, c.n, header);
    }
    LeafNodes(node, x);
  }

  lemma NilNodes()
    ensures NodesOf(Nil) == {} && Apart(Nil)
  {
  }

  lemma LeafNodes(node: Node, p: Node)
    ensures NodesOf(Bin(Nil, node, node.red, Nil)) == {node} && Apart(Bin(Nil, node, node.red, Nil))
    ensures Linked(Bin(Nil, node, node.red, Nil), p) <==> node.parent == p && node.left == null && node.right == null
  {
  }
}
