// rb_tree_insert_rebalance, for both of its mirror-image halves at once.

module RbInsert {
  import opened RbShape
  import opened RbNodes

  /** Case 3 of the loop: parent and uncle turn black, the grandparent turns red and becomes the focus. */
  method RaiseRedStep(x: Node, uncle: Node, header: Node, ghost c: Hole, ghost t: Shape, ghost all: set<Node>)
    returns (x': Node, ghost c': Hole, ghost t': Shape)
    requires At(c, t, header, all) && t.Bin? && t.n == x && RedFocus(c, t)
    requires c.In? && c.red && c.up.In? && IsRed(c.up.other) && c.up.other.n == uncle
    modifies all
    ensures At(c', t', header, all) && t'.Bin? && t'.n == x' && RedFocus(c', t') && c' == c.up.up
    ensures InOrder(Plug(c', t')) == InOrder(Plug(c, t))
  {
    hide RedFocus, At, Linked, LinkedAround, NodesOf, InOrder;
    ghost var g := c.up;
    ghost var t1 := Mk(c.side, t, c.n, false, c.other);
    ghost var u := Opposite(g, t1);
    RaiseRed(c, t);
    Near(c, t, header, all);
    Up(c, t, header, all);
    Near(g, Mk(c.side, t, c.n, true, c.other), header, all);
    Paint(x.parent, false, header, g, Mk(c.side, t, c.n, true, c.other), all);
    Across(g, t1, header, all);
    Paint(uncle, false, header, u, g.other, all);
    Across(u, Black(g.other), header, all);
    Up(Opposite(u, Black(g.other)), t1, header, all);
    ghost var t2 := Mk(g.side, t1, g.n, g.red, Black(g.other));
    Near(g.up, t2, header, all);
    Up(In(Opposite(u, Black(g.other)), c.side, c.n, false, c.other), t, header, all);
    Near(Opposite(u, Black(g.other)), t1, header, all);
    Near(In(Opposite(u, Black(g.other)), c.side, c.n, false, c.other), t, header, all);
    x' := x.parent.parent;
    Paint(x', true, header, g.up, t2, all);
    c', t' := g.up, t2.(red := true);
    RaisedOrder(c, t);
  }

  lemma RaisedOrder(c: Hole, t: Shape)
    requires c.In? && c.up.In?
    ensures var g := c.up;
      InOrder(Plug(g.up, Mk(g.side, Mk(c.side, t, c.n, false, c.other), g.n, true,
          Black(g.other)))) == InOrder(Plug(c, t))
  {
    var g := c.up;
    var t1 := Mk(c.side, t, c.n, c.red, c.other);
    MkInOrder(c.side, t, c.n, c.red, c.other);
    MkInOrder(c.side, t, c.n, false, c.other);
    MkInOrder(g.side, t1, g.n, g.red, g.other);
    MkInOrder(g.side, Mk(c.side, t, c.n, false, c.other), g.n, true, Black(g.other));
    SameOrder(g.up, Mk(g.side, t1, g.n, g.red, g.other), Mk(g.side, Mk(c.side, t, c.n, false, c.other), g.n, true,
        Black(g.other)));
  }

  lemma FocusIsRed(c: Hole, t: Shape)
    requires RedFocus(c, t)
    ensures t.Bin? && t.red
  {
  }

  /** Case 4: the focus is on the inner side of its parent, which is rotated away from it and becomes the focus. */
  method TurnOutwardStep(side: Side, x: Node, header: Node, ghost c: Hole, ghost t: Shape, ghost all: set<Node>)
    returns (x': Node, ghost c': Hole, ghost t': Shape)
    requires At(c, t, header, all) && t.Bin? && t.n == x && RedFocus(c, t)
    requires c.In? && c.red && c.up.In? && c.up.side == side == Other(c.side)
    modifies all, header`parent
    ensures At(c', t', header, all) && t'.Bin? && t'.n == x' && RedFocus(c', t')
    ensures c'.In? && c'.red && c'.side == side && c'.up == c.up
    ensures InOrder(Plug(c', t')) == InOrder(Plug(c, t))
  {
    hide RedFocus, At, Linked, LinkedAround, NodesOf, InOrder, Mk, Rotated;
    ghost var tp := Mk(c.side, t, c.n, true, c.other);
    TurnOutward(c, t);
    FocusIsRed(c, t);
    Near(c, t, header, all);
    Up(c, t, header, all);
    MkSub(c.side, t, c.n, true, c.other);
    x' := x.parent;
    Rotate(side, x', header, c.up, tp, all);
    RotatedOrder(side, tp);
    RotatedIs(side, tp);
    t' := Mk(side, c.other, c.n, true, Sub(t, side));
    c' := In(c.up, side, t.n, true, Sub(t, c.side));
    MkSub(side, c.other, c.n, true, Sub(t, side));
    Up(c', t', header, all);
    SameOrder(c.up, tp, Rotated(side, tp));
  }

  /** Case 5: the parent turns black, the grandparent red, and the grandparent is rotated away from the focus. */
  method TurnOverStep(side: Side, x: Node, header: Node, ghost c: Hole, ghost t: Shape, ghost all: set<Node>)
    returns (ghost c': Hole, ghost t': Shape)
    requires At(c, t, header, all) && t.Bin? && t.n == x && RedFocus(c, t)
    requires c.In? && c.red && c.up.In? && c.up.side == side == c.side && !IsRed(c.up.other)
    modifies all, header`parent
    ensures At(c', t', header, all) && t'.Bin? && RedBlack(Plug(c', t'))
    ensures InOrder(Plug(c', t')) == InOrder(Plug(c, t))
  {
    hide RedFocus, At, Linked, LinkedAround, NodesOf, InOrder, Mk, Rotated, Fits, Sound, RedBlack;
    ghost var g := c.up;
    ghost var tp := Mk(side, t, c.n, false, c.other);
    ghost var tg := Mk(side, tp, g.n, true, g.other);
    TurnOver(c, t);
    RedParentHasParent(c, t);
    Near(c, t, header, all);
    Up(c, t, header, all);
    MkSub(side, t, c.n, true, c.other);
    Near(g, Mk(side, t, c.n, true, c.other), header, all);
    Paint(x.parent, false, header, g, Mk(side, t, c.n, true, c.other), all);
    Up(g, tp, header, all);
    MkSub(side, t, c.n, false, c.other);
    MkSub(side, tp, g.n, false, g.other);
    Near(g.up, Mk(side, tp, g.n, false, g.other), header, all);
    Paint(x.parent.parent, true, header, g.up, Mk(side, tp, g.n, false, g.other), all);
    MkSub(side, tp, g.n, true, g.other);
    Rotate(Other(side), x.parent.parent, header, g.up, tg, all);
    RotatedIs(Other(side), tg);
    MkSub(side, c.other, g.n, true, g.other);
    MkSub(side, t, c.n, false, Mk(side, c.other, g.n, true, g.other));
    c', t' := g.up, Rotated(Other(side), tg);
    TurnedOrder(side, c, t);
  }

  lemma FiveParts(a: seq<Node>, b: seq<Node>, c: seq<Node>, d: seq<Node>, e: seq<Node>)
    ensures (a + b + c) + d + e == a + b + (c + d + e)
  {
  }

  lemma TurnedOrder(side: Side, c: Hole, t: Shape)
    requires c.In? && c.up.In? && c.side == c.up.side == side
    ensures var g := c.up;
      InOrder(Plug(g.up, Mk(side, t, c.n, false, Mk(side, c.other, g.n, true, g.other)))) == InOrder(Plug(c, t))
  {
    var g := c.up;
    var t1 := Mk(side, t, c.n, c.red, c.other);
    MkInOrder(side, t, c.n, c.red, c.other);
    MkInOrder(side, t1, g.n, g.red, g.other);
    MkInOrder(side, c.other, g.n, true, g.other);
    MkInOrder(side, t, c.n, false, Mk(side, c.other, g.n, true, g.other));
    hide InOrder, Mk, Plug;
    FiveParts(InOrder(t), [c.n], InOrder(c.other), [g.n], InOrder(g.other));
    FiveParts(InOrder(g.other), [g.n], InOrder(c.other), [c.n], InOrder(t));
    SameOrder(g.up, Mk(side, t1, g.n, g.red, g.other), Mk(side, t, c.n, false, Mk(side, c.other, g.n, true, g.other)));
  }

  lemma LeafFocus(c: Hole, x: Node)
    requires Fits(c, 0, false)
    ensures RedFocus(c, Bin(Nil, x, true, Nil))
  {
  }

  /** `x` has just been linked as a leaf; afterwards the tree is red-black again and in the same order. */
  method InsertRebalance(x0: Node, header: Node, ghost c0: Hole, ghost t0: Shape, ghost all: set<Node>)
    returns (ghost whole: Shape)
    requires At(c0, t0, header, all) && t0 == Bin(Nil, x0, x0.red, Nil) && Fits(c0, 0, false)
    modifies all, header`parent
    ensures At(Top, whole, header, all) && RedBlack(whole)
    ensures InOrder(whole) == InOrder(Plug(c0, t0))
  {
    var x := x0;
    ghost var c, t := c0, t0.(red := true);
    Near(c0, t0, header, all);
    Paint(x, true, header, c0, t0, all);
    SameOrder(c0, t0, t);
    ghost var balanced := false;
    LeafFocus(c, x);
    hide RedFocus, At, Linked, LinkedAround, NodesOf, InOrder, Mk, Sound, Fits;
    Near(c, t, header, all);
    while x != header.parent && x.parent.red
      invariant At(c, t, header, all) && t.Bin? && InOrder(Plug(c, t)) == InOrder(Plug(c0, t0))
      invariant !balanced && t.n == x && RedFocus(c, t)
      invariant x != header.parent ==> x.parent != null
      decreases c
    {
      Near(c, t, header, all);
      RedParentHasParent(c, t);
      Up(c, t, header, all);
      Near(c.up, Mk(c.side, t, c.n, c.red, c.other), header, all);
      MkSub(c.side, t, c.n, c.red, c.other);
      var side := if x.parent == x.parent.parent.left then L else R;
      assert side == c.up.side;
      var uncle := Kid(x.parent.parent, Other(side));
      if uncle != null && uncle.red {
        x, c, t := RaiseRedStep(x, uncle, header, c, t, all);
        Near(c, t, header, all);
      } else {
        if x != Kid(x.parent, side) {
          x, c, t := TurnOutwardStep(side, x, header, c, t, all);
        }
        c, t := TurnOverStep(side, x, header, c, t, all);
        balanced := true;
        break;
      }
    }
    if !balanced {
      Near(c, t, header, all);
      InsertionDone(c, t);
    }
    Whole(c, t, header, all);
    Near(Top, Plug(c, t), header, all);
    Paint(header.parent, false, header, Top, Plug(c, t), all);
    whole := Plug(c, t).(red := false);
    RecolouredOrder(Plug(c, t), false);
  }
}
