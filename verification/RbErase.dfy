// rb_tree_erase_rebalance, for both of its mirror-image halves at once.

module RbErase {
  import opened RbShape
  import opened RbNodes
  import opened RbUnlink

  lemma MkSame(side: Side, a: Shape, n: Node, red: bool, b: Shape, a': Shape, red': bool, b': Shape)
    requires InOrder(a) == InOrder(a') && InOrder(b) == InOrder(b')
    ensures InOrder(Mk(side, a, n, red, b)) == InOrder(Mk(side, a', n, red', b'))
  {
    MkInOrder(side, a, n, red, b);
    MkInOrder(side, a', n, red', b');
  }

  /** Paints the sibling of the focus. */
  method PaintBrother(brother: Node, red: bool, header: Node, ghost c: Hole, ghost t: Shape, ghost all: set<Node>)
    returns (ghost c': Hole)
    requires At(c, t, header, all) && c.In? && c.other.Bin? && c.other.n == brother
    modifies brother`red
    ensures c' == In(c.up, c.side, c.n, c.red, c.other.(red := red)) && At(c', t, header, all) && brother.red == red
  {
    hide At, Linked, LinkedAround, NodesOf, Mk;
    ghost var o := Opposite(c, t);
    Across(c, t, header, all);
    Paint(brother, red, header, o, c.other, all);
    Across(o, c.other.(red := red), header, all);
    c' := Opposite(o, c.other.(red := red));
  }

  /** Paints the parent of the focus. */
  method PaintParent(xp: Node, red: bool, header: Node, ghost c: Hole, ghost t: Shape, ghost all: set<Node>)
    returns (ghost c': Hole)
    requires At(c, t, header, all) && c.In? && c.n == xp
    modifies xp`red
    ensures c' == In(c.up, c.side, c.n, red, c.other) && At(c', t, header, all) && xp.red == red
  {
    hide At, Linked, LinkedAround, NodesOf, Mk;
    Up(c, t, header, all);
    MkSub(c.side, t, c.n, c.red, c.other);
    Paint(xp, red, header, c.up, Mk(c.side, t, c.n, c.red, c.other), all);
    c' := In(c.up, c.side, c.n, red, c.other);
    Up(c', t, header, all);
    MkSub(c.side, t, c.n, red, c.other);
  }

  /** Rotates the parent of the focus towards the focus; its sibling goes up. */
  method RotateParent(side: Side, xp: Node, header: Node, ghost c: Hole, ghost t: Shape, ghost all: set<Node>)
    returns (ghost c': Hole)
    requires At(c, t, header, all) && c.In? && c.n == xp && c.side == side && c.other.Bin?
    modifies all, header`parent
    ensures c' == In(In(c.up, side, c.other.n, c.other.red, Sub(c.other, Other(side))), side, c.n, c.red,
              Sub(c.other, side))
    ensures At(c', t, header, all) && InOrder(Plug(c', t)) == InOrder(Plug(c, t))
  {
    hide At, Linked, LinkedAround, NodesOf, Mk, Rotated, InOrder;
    ghost var b, p := c.other, Mk(side, t, c.n, c.red, c.other);
    Up(c, t, header, all);
    MkSub(side, t, c.n, c.red, b);
    Rotate(side, xp, header, c.up, p, all);
    RotatedIs(side, p);
    RotatedOrder(side, p);
    SameOrder(c.up, p, Rotated(side, p));
    ghost var below := Mk(side, t, c.n, c.red, Sub(b, side));
    ghost var c1 := In(c.up, side, b.n, b.red, Sub(b, Other(side)));
    Up(c1, below, header, all);
    c' := In(c1, side, c.n, c.red, Sub(b, side));
    Up(c', t, header, all);
  }

  method BrotherOf(side: Side, xp: Node, header: Node, ghost c: Hole, ghost t: Shape, ghost all: set<Node>)
    returns (brother: Node)
    requires At(c, t, header, all) && c.In? && c.n == xp && c.side == side && c.other.Bin?
    ensures brother == c.other.n && brother in all && brother.red == c.other.red
    ensures forall s: Side :: Kid(brother, s) == Root(Sub(c.other, s))
  {
    Near(c, t, header, all);
    brother := Kid(xp, Other(side));
  }

  /** Case 1: a red brother turns black, the parent red, and the parent is rotated towards the focus. */
  method RedBrotherStep(side: Side, brother: Node, xp: Node, header: Node, ghost c: Hole, ghost t: Shape,
          ghost all: set<Node>)
    returns (ghost c': Hole)
    requires At(c, t, header, all) && Short(c, t) && !IsRed(t)
    requires c.In? && c.n == xp && c.side == side && IsRed(c.other) && c.other.n == brother
    modifies all, header`parent
    ensures At(c', t, header, all) && Short(c', t) && InOrder(Plug(c', t)) == InOrder(Plug(c, t))
    ensures c'.In? && c'.n == xp && c'.side == side && c'.red && c'.other.Bin? && !c'.other.red
    ensures c'.up.In? && c'.up.up == c.up
  {
    hide At, Linked, LinkedAround, NodesOf, Mk, Rotated, Short, InOrder;
    TurnRedBrother(c, t);
    Near(c, t, header, all);
    c' := PaintBrother(brother, false, header, c, t, all);
    c' := PaintParent(xp, true, header, c', t, all);
    RecolouredOrder(c.other, false);
    RecolouredPlug(c, c', t);
    c' := RotateParent(side, xp, header, c', t, all);
  }

  /** Colours and the inside of equal-order siblings do not matter for the order. */
  lemma RecolouredPlug(c: Hole, c': Hole, t: Shape)
    requires c.In? && c'.In? && c.up == c'.up && c.side == c'.side && c.n == c'.n
              && InOrder(c.other) == InOrder(c'.other)
    ensures InOrder(Plug(c, t)) == InOrder(Plug(c', t))
  {
    hide InOrder, Mk;
    MkSame(c.side, t, c.n, c.red, c.other, t, c'.red, c'.other);
    SameOrder(c.up, Mk(c.side, t, c.n, c.red, c.other), Mk(c.side, t, c.n, c'.red, c'.other));
  }

  /** Case 2: with black nephews the brother turns red and the parent becomes the focus. */
  method PassUpStep(brother: Node, xp: Node, header: Node, ghost c: Hole, ghost t: Shape, ghost all: set<Node>)
    returns (x': Node, xp': Node, ghost c': Hole, ghost t': Shape)
    requires At(c, t, header, all) && Short(c, t) && !IsRed(t)
    requires c.In? && c.n == xp && c.other.Bin? && !c.other.red && c.other.n == brother
    requires !IsRed(c.other.left) && !IsRed(c.other.right)
    modifies brother`red
    ensures At(c', t', header, all) && Short(c', t') && InOrder(Plug(c', t')) == InOrder(Plug(c, t))
    ensures t'.Bin? && x' == t'.n && xp' == Holder(c', header) && c' == c.up && IsRed(t') == c.red
  {
    hide At, Linked, LinkedAround, NodesOf, Mk, Short, InOrder;
    PassUp(c, t);
    ghost var c1 := PaintBrother(brother, true, header, c, t, all);
    RecolouredOrder(c.other, true);
    RecolouredPlug(c, c1, t);
    Up(c1, t, header, all);
    c', t' := c.up, Mk(c.side, t, c.n, c.red, c1.other);
    MkSub(c.side, t, c.n, c.red, c1.other);
    Near(c', t', header, all);
    x' := xp;
    xp' := xp.parent;
  }

  /** Case 3: a red near nephew turns black, the brother red, and the brother is rotated away from the focus. */
  method TurnBrotherStep(side: Side, brother: Node, header: Node, ghost c: Hole, ghost t: Shape, ghost all: set<Node>)
    returns (ghost c': Hole)
    requires At(c, t, header, all) && Short(c, t)
    requires c.In? && c.side == side && c.other.Bin? && !c.other.red && c.other.n == brother
    requires IsRed(Sub(c.other, side)) && !IsRed(Sub(c.other, Other(side)))
    modifies all, header`parent
    ensures At(c', t, header, all) && Short(c', t) && InOrder(Plug(c', t)) == InOrder(Plug(c, t))
    ensures c'.In? && c'.up == c.up && c'.side == side && c'.n == c.n && c'.red == c.red
    ensures c'.other.Bin? && !c'.other.red && IsRed(Sub(c'.other, Other(side)))
  {
    hide At, Linked, LinkedAround, NodesOf, Mk, Rotated, Short, InOrder;
    TurnBrother(c, t);
    ghost var o, b, w, f := Opposite(c, t), c.other, Sub(c.other, side), Sub(c.other, Other(side));
    Across(c, t, header, all);
    Near(o, b, header, all);
    ghost var down := In(o, side, b.n, false, f);
    Down(o, b, side, header, all);
    Near(down, w, header, all);
    if Kid(brother, side) != null {
      Paint(Kid(brother, side), false, header, down, w, all);
    }
    down := PaintParent(brother, true, header, down, w.(red := false), all);
    Up(down, w.(red := false), header, all);
    ghost var b' := Mk(side, w.(red := false), b.n, true, f);
    MkSub(side, w.(red := false), b.n, true, f);
    Rotate(Other(side), brother, header, o, b', all);
    RotatedIs(Other(side), b');
    RotatedOrder(Other(side), b');
    RecolouredOrder(w, false);
    Rebuild(side, b);
    MkSame(side, w, b.n, false, f, w.(red := false), true, f);
    ghost var t' := Rotated(Other(side), b');
    Across(o, t', header, all);
    c' := Opposite(o, t');
    MkSub(side, Sub(w, Other(side)), b.n, true, f);
    MkSub(side, Sub(w, side), w.n, false, Mk(side, Sub(w, Other(side)), b.n, true, f));
    RecolouredPlug(c, c', t);
  }

  /** Paints the child of the brother on the side away from the focus. */
  method BlackenFarNephew(side: Side, brother: Node, header: Node, ghost c: Hole, ghost t: Shape, ghost all: set<Node>)
    returns (ghost c': Hole)
    requires At(c, t, header, all) && c.In? && c.side == side && c.other.Bin? && c.other.n == brother
    modifies all
    ensures At(c', t, header, all)
    ensures c' == In(c.up, side, c.n, c.red,
                     Mk(side, Sub(c.other, side), brother, c.other.red, Black(Sub(c.other, Other(side)))))
    ensures InOrder(c'.other) == InOrder(c.other)
  {
    hide At, Linked, LinkedAround, NodesOf, Mk, InOrder;
    ghost var o, b, n, f := Opposite(c, t), c.other, Sub(c.other, side), Sub(c.other, Other(side));
    Across(c, t, header, all);
    Near(o, b, header, all);
    ghost var down := In(o, Other(side), b.n, b.red, n);
    Down(o, b, Other(side), header, all);
    Near(down, f, header, all);
    Rebuild(side, b);
    if Kid(brother, Other(side)) != null {
      Paint(Kid(brother, Other(side)), false, header, down, f, all);
      RecolouredOrder(f, false);
    }
    Up(down, Black(f), header, all);
    MkSub(side, n, b.n, b.red, Black(f));
    MkSame(side, n, b.n, b.red, f, n, b.red, Black(f));
    ghost var b' := Mk(side, n, b.n, b.red, Black(f));
    Across(o, b', header, all);
    c' := Opposite(o, b');
  }

  /** Case 4: the brother takes the parent's colour, parent and far nephew turn black, the parent is rotated. */
  method TurnParentStep(side: Side, brother: Node, xp: Node, header: Node, ghost c: Hole, ghost t: Shape,
          ghost all: set<Node>)
    returns (ghost c': Hole)
    requires At(c, t, header, all) && Short(c, t) && !IsRed(t)
    requires c.In? && c.side == side && c.n == xp && c.other.Bin? && !c.other.red && c.other.n == brother
    requires IsRed(Sub(c.other, Other(side)))
    modifies all, header`parent
    ensures At(c', t, header, all) && RedBlack(Plug(c', t)) && InOrder(Plug(c', t)) == InOrder(Plug(c, t))
  {
    hide At, Linked, LinkedAround, NodesOf, Mk, Rotated, Short, InOrder, RedBlack;
    TurnParent(c, t);
    ghost var b, n, f := c.other, Sub(c.other, side), Sub(c.other, Other(side));
    Near(c, t, header, all);
    ghost var c1 := PaintBrother(brother, xp.red, header, c, t, all);
    ghost var c2 := PaintParent(xp, false, header, c1, t, all);
    ghost var c3 := BlackenFarNephew(side, brother, header, c2, t, all);
    RecolouredOrder(b, c.red);
    MkSub(side, n, b.n, c.red, Black(f));
    RecolouredPlug(c, c1, t);
    RecolouredPlug(c1, c2, t);
    RecolouredPlug(c2, c3, t);
    c' := RotateParent(side, xp, header, c3, t, all);
  }

  /** Cases 3 and 4 together, which end the loop. */
  method FinishAtBrother(side: Side, brother0: Node, xp: Node, header: Node, ghost c: Hole, ghost t: Shape,
          ghost all: set<Node>)
    returns (ghost c': Hole)
    requires At(c, t, header, all) && Short(c, t) && !IsRed(t)
    requires c.In? && c.side == side && c.n == xp && c.other.Bin? && !c.other.red && c.other.n == brother0
    requires IsRed(c.other.left) || IsRed(c.other.right)
    modifies all, header`parent
    ensures At(c', t, header, all) && RedBlack(Plug(c', t)) && InOrder(Plug(c', t)) == InOrder(Plug(c, t))
  {
    hide At, Linked, LinkedAround, NodesOf, Mk, Rotated, Short, InOrder, RedBlack;
    var brother := brother0;
    c' := c;
    FarNephew(side, c, t, header, all);
    if Kid(brother, Other(side)) == null || !Kid(brother, Other(side)).red {
      c' := TurnBrotherStep(side, brother, header, c, t, all);
      brother := BrotherOf(side, xp, header, c', t, all);
    }
    c' := TurnParentStep(side, brother, xp, header, c', t, all);
  }

  lemma FarNephew(side: Side, c: Hole, t: Shape, header: Node, all: set<Node>)
    requires At(c, t, header, all) && c.In? && c.other.Bin?
    ensures var b, v := c.other.n, Kid(c.other.n, side);
      (v != null && v.red) == IsRed(Sub(c.other, side))
    ensures var v := Kid(c.other.n, Other(side)); (v != null && v.red) == IsRed(Sub(c.other, Other(side)))
  {
    hide At, Mk;
    var o, b := Opposite(c, t), c.other;
    Across(c, t, header, all);
    Near(o, b, header, all);
    forall s: Side
      ensures Sub(b, s).Bin? ==> Sub(b, s).n.red == Sub(b, s).red
    {
      Down(o, b, s, header, all);
      Near(In(o, s, b.n, b.red, Sub(b, Other(s))), Sub(b, s), header, all);
    }
  }

  /** The loop that repairs a missing black node at the focus `x`, whose parent is `xp`. */
  method Repair(x0: Node?, xp0: Node, header: Node, ghost c0: Hole, ghost t0: Shape, ghost all: set<Node>)
    returns (ghost whole: Shape)
    requires At(c0, t0, header, all) && x0 == Root(t0) && xp0 == Holder(c0, header) && Short(c0, t0)
    modifies all, header`parent
    ensures At(Top, whole, header, all) && RedBlack(whole) && InOrder(whole) == InOrder(Plug(c0, t0))
  {
    hide At, Linked, LinkedAround, NodesOf, Mk, Short, InOrder;
    var x, xp := x0, xp0;
    ghost var c, t, balanced := c0, t0, false;
    Near(c, t, header, all);
    while x != header.parent && (x == null || !x.red)
      invariant At(c, t, header, all) && x == Root(t) && InOrder(Plug(c, t)) == InOrder(Plug(c0, t0))
      invariant !balanced && Short(c, t) && xp == Holder(c, header)
      decreases if IsRed(t) then 0 else Depth(c) + 1
    {
      Near(c, t, header, all);
      BrotherExists(c, t);
      var side := if x == xp.left then L else R;
      assert side == c.side;
      var brother := BrotherOf(side, xp, header, c, t, all);
      ghost var depth := Depth(c);
      if brother.red {
        c := RedBrotherStep(side, brother, xp, header, c, t, all);
        brother := BrotherOf(side, xp, header, c, t, all);
      }
      FarNephew(L, c, t, header, all);
      if (brother.left == null || !brother.left.red) && (brother.right == null || !brother.right.red) {
        x, xp, c, t := PassUpStep(brother, xp, header, c, t, all);
      } else {
        c := FinishAtBrother(side, brother, xp, header, c, t, all);
        balanced := true;
        break;
      }
    }
    Near(c, t, header, all);
    if x != null {
      Paint(x, false, header, c, t, all);
      RecolouredOrder(t, false);
      SameOrder(c, t, Black(t));
    }
    if !balanced {
      RemovalDone(c, t);
    }
    Whole(c, Black(t), header, all);
    whole := Plug(c, Black(t));
  }

  /** What unlinking `z` leaves for the second half of rb_tree_erase_rebalance: the focus with node `x`, or none, below
      `xp`, in a red-black tree if the node taken out was red and one black node short if it was black. */
  ghost predicate Leaves(x: Node?, xp: Node, red: bool, header: Node, c: Hole, t: Shape)
  {
    && x == Root(t) && xp == Holder(c, header)
    && if red then RedBlack(Plug(c, t)) else Short(c, t)
  }

  method UnlinkOne(z: Node, header: Node, ghost c: Hole, ghost t: Shape, ghost all: set<Node>)
    returns (x: Node?, xp: Node, ghost t1: Shape)
    requires At(c, t, header, all) && t.Bin? && t.n == z && RedBlack(Plug(c, t)) && (t.left.Nil? || t.right.Nil?)
    requires forall s: Side :: Kid(header, s) == End(s, InOrder(Plug(c, t)), header)
    modifies all, header`left, header`right, header`parent
    ensures At(c, t1, header, all - {z}) && Leaves(x, xp, z.red, header, c, t1)
    ensures InOrder(Plug(c, t1)) == Rest(c, t)
    ensures forall s: Side :: Kid(header, s) == End(s, Rest(c, t), header)
  {
    assert header !in all;
    t1 := OnlyChild(t);
    assert z.red == t.red by { hide ApartAround, LinkedAround, Apart; }
    SingleShort(c, t);
    hide At, Linked, InOrder, Plug, Rest, End, RedBlack, Short, Kid, OnlyChild;
    x, xp := UnlinkSingle(z, header, c, t, all);
  }

  method UnlinkTwo(z: Node, header: Node, ghost c: Hole, ghost t: Shape, ghost all: set<Node>)
    returns (x: Node?, xp: Node, ghost c1: Hole, ghost t1: Shape)
    requires At(c, t, header, all) && t.Bin? && t.n == z && RedBlack(Plug(c, t)) && t.left.Bin? && t.right.Bin?
    requires forall s: Side :: Kid(header, s) == End(s, InOrder(Plug(c, t)), header)
    modifies all, header`parent
    ensures At(c1, t1, header, all - {z}) && Leaves(x, xp, z.red, header, c1, t1)
    ensures InOrder(Plug(c1, t1)) == Rest(c, t)
    ensures forall s: Side :: Kid(header, s) == End(s, Rest(c, t), header)
  {
    assert header !in all;
    hide At, Linked, InOrder, Plug, Rest, End, RedBlack, Short, Mk, Splits, Kid, Stack;
    ghost var y, e;
    forall s: Side
      ensures Kid(header, s) == End(s, Rest(c, t), header)
    {
      InnerEnds(s, c, t, header);
    }
    x, xp, y, e, t1 := UnlinkInner(z, header, c, t, all);
    InnerShort(c, t, y, z.red, e, t1);
    c1 := Stack(e, In(c, R, y, t.red, t.left));
  }

  /** The second half: repairs the tree if the node taken out was black. */
  method FinishErase(x: Node?, xp: Node, red: bool, header: Node, ghost c: Hole, ghost t: Shape, ghost all: set<Node>)
    returns (ghost whole: Shape)
    requires At(c, t, header, all) && Leaves(x, xp, red, header, c, t)
    modifies all, header`parent
    ensures At(Top, whole, header, all) && RedBlack(whole) && InOrder(whole) == InOrder(Plug(c, t))
  {
    hide At, InOrder, Plug, RedBlack, Short;
    if !red {
      whole := Repair(x, xp, header, c, t, all);
    } else {
      Whole(c, t, header, all);
      whole := Plug(c, t);
    }
  }

  /** rb_tree_erase_rebalance: takes out `z` wherever it is; the rest is a red-black tree in the same order,
      and leftmost and rightmost are its ends, or the header when nothing is left. */
  method EraseRebalance(z: Node, header: Node, ghost c: Hole, ghost t: Shape, ghost all: set<Node>)
    returns (ghost whole: Shape)
    requires At(c, t, header, all) && t.Bin? && t.n == z && RedBlack(Plug(c, t))
    requires forall s: Side :: Kid(header, s) == End(s, InOrder(Plug(c, t)), header)
    modifies all, header`left, header`right, header`parent
    ensures At(Top, whole, header, all - {z}) && RedBlack(whole)
    ensures InOrder(whole) == Rest(c, t)
    ensures forall s: Side :: Kid(header, s) == End(s, Rest(c, t), header)
  {
    assert header !in all;
    hide At, Linked, InOrder, Plug, Rest, End, RedBlack, Short, Kid, Leaves;
    var x, xp;
    ghost var c1, t1 := c, t;
    Near(c, t, header, all);
    KidIsField(z);
    if z.left == null || z.right == null {
      x, xp, t1 := UnlinkOne(z, header, c, t, all);
    } else {
      x, xp, c1, t1 := UnlinkTwo(z, header, c, t, all);
    }
    whole := FinishErase(x, xp, z.red, header, c1, t1, all - {z});
  }
}
