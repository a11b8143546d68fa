// The first half of rb_tree_erase_rebalance: taking a node out and handing over its place.

module RbUnlink {
  import opened RbShape
  import opened RbNodes

  /** The first or last of `s`, or the header when there is none. */
  function End(side: Side, s: seq<Node>, header: Node): Node
  {
    if s == [] then header else if side == L then s[0] else s[|s| - 1]
  }

  lemma InThree(x: Node, a: seq<Node>, b: seq<Node>, c: seq<Node>)
    ensures x in a + b + c <==> x in a || x in b || x in c
  {
  }

  lemma {:induction false} OrderNode(t: Shape, x: Node)
    ensures x in InOrder(t) <==> x in NodesOf(t)
  {
    if t.Bin? {
      OrderNode(t.left, x);
      OrderNode(t.right, x);
      InThree(x, InOrder(t.left), [t.n], InOrder(t.right));
    }
  }

  /** The list around a hole has the nodes around it, none of them on both sides. */
  lemma {:induction false} AroundNode(c: Hole, x: Node)
    ensures x in Before(c) || x in After(c) <==> x in NodesAround(c)
    ensures ApartAround(c) && x in Before(c) ==> x !in After(c)
  {
    if c.In? {
      AroundNode(c.up, x);
      OrderNode(c.other, x);
      InThree(x, [c.n], InOrder(c.other), After(c.up));
      InThree(x, Before(c.up), InOrder(c.other), [c.n]);
    }
  }

  lemma OuterHole(c: Hole)
    requires c.In?
    ensures Before(c) == [] ==> c.side == L && After(c) != [] && After(c)[0] == c.n
    ensures After(c) == [] ==> c.side == R && Before(c) != [] && Before(c)[|Before(c)| - 1] == c.n
  {
  }

  /** The node list without `z`. */
  function Rest(c: Hole, t: Shape): seq<Node>
    requires t.Bin?
  {
    Before(c) + InOrder(t.left) + (InOrder(t.right) + After(c))
  }

  /** The child that takes the place of a node with at most one child. */
  function OnlyChild(t: Shape): Shape
    requires t.Bin?
  {
    if t.left.Bin? then t.left else t.right
  }

  lemma OnlyChildOrder(c: Hole, t: Shape)
    requires t.Bin? && (t.left.Nil? || t.right.Nil?)
    ensures InOrder(Plug(c, OnlyChild(t))) == Rest(c, t)
  {
    InOrderPlug(c, OnlyChild(t));
  }

  lemma OrderAround(c: Hole, t: Shape)
    requires t.Bin?
    ensures InOrder(Plug(c, t)) == Before(c) + InOrder(t.left) + [t.n] + (InOrder(t.right) + After(c))
  {
    InOrderPlug(c, t);
    hide Before, After, Plug;
    assert InOrder(t) == InOrder(t.left) + [t.n] + InOrder(t.right);
    hide InOrder;
  }

  /** If `z` was at an end of the list, its neighbour there is the least or greatest node of the subtree that
      takes its place, or else the parent. */
  lemma EndWithout(side: Side, c: Hole, t: Shape, header: Node)
    requires t.Bin? && (t.left.Nil? || t.right.Nil?)
    requires t.n !in NodesAround(c) && t.n !in NodesOf(t.left) && t.n !in NodesOf(t.right)
    ensures var old', new' := InOrder(Plug(c, t)), Rest(c, t);
      if End(side, old', header) != t.n then End(side, new', header) == End(side, old', header)
      else if OnlyChild(t).Nil? then End(side, new', header) == Holder(c, header)
      else End(side, new', header) == End(side, InOrder(OnlyChild(t)), header) && InOrder(OnlyChild(t)) != []
  {
    OrderAround(c, t);
    AroundNode(c, t.n);
    OrderNode(t.left, t.n);
    OrderNode(t.right, t.n);
    var b, a := Before(c) + InOrder(t.left), InOrder(t.right) + After(c);
    assert t.n !in b && t.n !in a;
    if c.In? {
      OuterHole(c);
    }
    hide Before, After, Plug;
  }

  /** leftmost or rightmost, after the node `z` there has been replaced by the subtree at `x`. */
  method MoveEnd(side: Side, z: Node, x: Node?, xp: Node, header: Node, ghost c: Hole, ghost t: Shape, ghost q: Node)
    requires t.Bin? && t.n == z && (t.left.Nil? || t.right.Nil?) && z !in NodesAround(c)
    requires z !in NodesOf(t.left) && z !in NodesOf(t.right)
    requires x == Root(OnlyChild(t)) && Linked(OnlyChild(t), q) && xp == Holder(c, header)
    requires Kid(header, side) == End(side, InOrder(Plug(c, t)), header)
    modifies header`left, header`right
    ensures Kid(header, side) == End(side, Rest(c, t), header)
              && Kid(header, Other(side)) == old(Kid(header, Other(side)))
  {
    hide InOrder, Linked, NodesOf, NodesAround, Kid, Plug, Rest;
    EndWithout(side, c, t, header);
    if Kid(header, side) == z {
      if x == null {
        SetKid(header, side, xp);
      } else {
        var y, _, _ := Extreme(side, x, OnlyChild(t), q);
        SetKid(header, side, y);
      }
    }
  }

  method MoveEnds(z: Node, x: Node?, xp: Node, header: Node, ghost c: Hole, ghost t: Shape, ghost q: Node)
    requires t.Bin? && t.n == z && (t.left.Nil? || t.right.Nil?) && z !in NodesAround(c)
    requires z !in NodesOf(t.left) && z !in NodesOf(t.right) && header !in NodesOf(OnlyChild(t))
    requires x == Root(OnlyChild(t)) && Linked(OnlyChild(t), q) && xp == Holder(c, header)
    requires forall s: Side :: Kid(header, s) == End(s, InOrder(Plug(c, t)), header)
    modifies header`left, header`right
    ensures forall s: Side :: Kid(header, s) == End(s, Rest(c, t), header)
  {
    hide InOrder, Linked, NodesOf, NodesAround, Kid, Plug, Rest, End, OnlyChild;
    assert allocated(NodesOf(OnlyChild(t)));
    MoveEnd(L, z, x, xp, header, c, t, q);
    MoveEnd(R, z, x, xp, header, c, t, q);
    forall s: Side
      ensures Kid(header, s) == End(s, Rest(c, t), header)
    {
      assert s == L || s == R;
    }
  }

  /** `z` has at most one child, which takes its place; leftmost and rightmost are kept up. */
  method UnlinkSingle(z: Node, header: Node, ghost c: Hole, ghost t: Shape, ghost all: set<Node>)
    returns (x: Node?, xp: Node)
    requires At(c, t, header, all) && t.Bin? && t.n == z && (t.left.Nil? || t.right.Nil?)
    requires forall s: Side :: Kid(header, s) == End(s, InOrder(Plug(c, t)), header)
    modifies all, header`left, header`right, header`parent
    ensures At(c, OnlyChild(t), header, all - {z}) && x == Root(OnlyChild(t)) && xp == Holder(c, header)
    ensures InOrder(Plug(c, OnlyChild(t))) == Rest(c, t) && z.red == old(z.red)
    ensures forall s: Side :: Kid(header, s) == End(s, Rest(c, t), header)
  {
    hide Linked, LinkedAround, InOrder, Plug, Rest, End, Kid;
    OnlyChildOrder(c, t);
    TopIn(t, c);
    TopIn(OnlyChild(t), c);
    SingleParts(c, t, header, all);
    Near(c, t, header, all);
    assert allocated(NodesOf(OnlyChild(t))) && allocated(NodesAround(c));
    x := if z.left != null then z.left else z.right;
    xp := z.parent;
    HangFrom(x, z.parent, z, OnlyChild(t));
    Replace(z, x, header, c);
    MoveEnds(z, x, xp, header, c, t, xp);
  }

  lemma SingleParts(c: Hole, t: Shape, header: Node, all: set<Node>)
    requires At(c, t, header, all) && t.Bin? && (t.left.Nil? || t.right.Nil?)
    ensures Linked(OnlyChild(t), t.n) && Apart(OnlyChild(t))
    ensures NodesOf(OnlyChild(t)) + NodesAround(c) == all - {t.n}
    ensures NodesOf(OnlyChild(t)) !! NodesAround(c) && t.n !in NodesAround(c)
    ensures t.n !in NodesOf(t.left) && t.n !in NodesOf(t.right) && t.n !in NodesOf(OnlyChild(t))
    ensures (if t.n.left != null then t.n.left else t.n.right) == Root(OnlyChild(t))
  {
  }

  /** The successor `y` of `z` is not the right child of `z`: its own right subtree takes its place. */
  method DetachSuccessor(y: Node, x: Node?, z: Node, ghost e: Hole, ghost rest: Shape)
    requires e.In? && e.side == L && LinkedSpine(e, y, z) && ApartAround(e)
    requires x == Root(rest) && Linked(rest, y) && Apart(rest) && y.parent == e.n
    requires NodesOf(rest) !! NodesAround(e) && y !in NodesOf(rest) && y !in NodesAround(e)
    modifies e.n`left, if rest.Nil? then {} else {rest.n}
    ensures Linked(Plug(e, rest), z)
  {
    hide Linked, NodesOf;
    TopIn(rest, e);
    assert allocated(NodesOf(rest)) && allocated(NodesAround(e)) && allocated(NodesAround(e.up))
        && allocated(NodesOf(e.other));
    SetLeft(e, y, z);
    HangFrom(x, y.parent, y, rest);
    assert LinkedSpine(e, y, z);
    assert Linked(e.other, e.n) && LinkedSpine(e.up, e.n, z);
    y.parent.left := x;
    PlugSpine(e, rest, z);
  }

  lemma SetLeft(e: Hole, y: Node, z: Node)
    requires e.In? && LinkedSpine(e, y, z) && ApartAround(e)
    ensures e.n !in NodesAround(e.up) && e.n !in NodesOf(e.other)
  {
  }

  lemma {:induction false} TopOfPlug(e: Hole, t: Shape, t': Shape)
    ensures e.In? ==> Root(Plug(e, t)) == Root(Plug(e, t')) && Root(Plug(e, t)) in NodesAround(e)
  {
    if e.In? && e.up.In? {
      TopOfPlug(e.up, Mk(e.side, t, e.n, e.red, e.other), Mk(e.side, t', e.n, e.red, e.other));
    }
  }

  /** The children of `z` as a path `e` down its right subtree to the successor `y`, and what hangs below `y`. */
  ghost predicate Splits(r: Shape, y: Node, red: bool, e: Hole, rest: Shape)
  {
    r == Plug(e, Mk(L, Nil, y, red, rest)) && AllOn(e, L)
  }

  lemma SplitNodes(r: Shape, y: Node, red: bool, e: Hole, rest: Shape)
    requires Splits(r, y, red, e, rest) && Apart(r)
    ensures NodesOf(r) == NodesAround(e) + {y} + NodesOf(rest)
    ensures y !in NodesAround(e) && y !in NodesOf(rest) && NodesAround(e) !! NodesOf(rest)
    ensures Apart(rest) && ApartAround(e) && NodesOf(Plug(e, rest)) == NodesOf(r) - {y} && Apart(Plug(e, rest))
  {
    hide NodesOf, NodesAround, Mk;
    var m := Mk(L, Nil, y, red, rest);
    PlugNodes(e, m);
    PlugNodes(e, rest);
    MkNodes(L, Nil, y, red, rest);
    NilNodes();
  }

  lemma SplitOrder(r: Shape, y: Node, red: bool, e: Hole, rest: Shape)
    requires Splits(r, y, red, e, rest)
    ensures InOrder(r) == [y] + InOrder(Plug(e, rest))
  {
    hide InOrder, Mk;
    var m := Mk(L, Nil, y, red, rest);
    AllOnOrder(e);
    InOrderPlug(e, m);
    InOrderPlug(e, rest);
    MkInOrder(L, Nil, y, red, rest);
    NilOrder();
    assert InOrder(m) == [y] + InOrder(rest);
    hide Plug, Before, After;
  }

  lemma SplitTop(r: Shape, y: Node, red: bool, e: Hole, rest: Shape)
    requires Splits(r, y, red, e, rest)
    ensures e.Top? ==> Root(r) == y
    ensures e.In? ==> Root(r) == Root(Plug(e, rest)) && Root(r) in NodesAround(e)
  {
    TopOfPlug(e, Mk(L, Nil, y, red, rest), rest);
  }

  lemma SplitLinked(r: Shape, y: Node, red: bool, e: Hole, rest: Shape, z: Node)
    requires Splits(r, y, red, e, rest) && Linked(r, z)
    ensures LinkedSpine(e, y, z) && Linked(rest, y) && y.parent == Holder(e, z) && y.red == red
    ensures y.left == null && y.right == Root(rest)
  {
    hide Linked, Mk;
    PlugSpine(e, Mk(L, Nil, y, red, rest), z);
    MkLinked(L, Nil, y, red, rest, Holder(e, z));
  }

  /** `y` takes over both subtrees of `z`. */
  method TakeChildren(y: Node, x: Node?, z: Node, ghost l: Shape, ghost r: Shape, ghost e: Hole, ghost rest: Shape)
    returns (xp: Node)
    requires Linked(l, z) && Linked(r, z) && l.Bin? && Splits(r, y, y.red, e, rest) && x == Root(rest)
    requires Apart(l) && Apart(r) && NodesOf(l) !! NodesOf(r) && z !in NodesOf(l) && z !in NodesOf(r)
    requires z.left == Root(l) && z.right == Root(r)
    modifies NodesOf(l) + NodesOf(r)
    ensures Linked(l, y) && Linked(Plug(e, rest), y) && y.left == Root(l) && y.right == Root(Plug(e, rest))
    ensures y.red == old(y.red) && xp == Holder(e, y)
  {
    hide Linked, NodesOf, LinkedSpine, Mk, NodesAround, Splits, Apart, ApartAround, Plug;
    SplitNodes(r, y, y.red, e, rest);
    SplitLinked(r, y, y.red, e, rest, z);
    SplitTop(r, y, y.red, e, rest);
    TopIn(l, e);
    TopIn(rest, e);
    TopIn(r, e);
    TopIn(Plug(e, rest), e);
    assert allocated(NodesOf(l)) && allocated(NodesOf(r)) && allocated(NodesOf(rest)) && allocated(NodesAround(e));
    HangFrom(z.left, y, z, l);
    y.left := z.left;
    if y != z.right {
      xp := y.parent;
      AllOnSide(r, y, y.red, e, rest);
      DetachSuccessor(y, x, z, e, rest);
      y.right := z.right;
      HangFrom(z.right, y, z, Plug(e, rest));
    } else {
      xp := y;
      PlugTop(e, rest);
    }
  }

  lemma AllOnSide(r: Shape, y: Node, red: bool, e: Hole, rest: Shape)
    requires Splits(r, y, red, e, rest) && e.In?
    ensures e.side == L
  {
  }

  lemma PlugTop(e: Hole, t: Shape)
    requires e.Top?
    ensures Plug(e, t) == t
  {
  }

  /** `y`, which has the children of `z` already, takes its place under its parent and swaps colours with it. */
  method TakeOver(z: Node, y: Node, header: Node, ghost c: Hole, ghost l: Shape, ghost red: bool, ghost r: Shape,
          ghost all: set<Node>)
    requires Linked(l, y) && Linked(r, y) && y.left == Root(l) && y.right == Root(r)
    requires LinkedAround(c, z, header) && ApartAround(c) && z.parent == Holder(c, header) && z.red == red
    requires NodesOf(l) + NodesOf(r) + {y} + NodesAround(c) == all && header !in all && z !in all && z != header
    requires NodesOf(l) !! NodesOf(r) && Apart(l) && Apart(r) && y !in NodesOf(l) && y !in NodesOf(r)
              && y !in NodesAround(c)
    requires NodesAround(c) !! NodesOf(l) && NodesAround(c) !! NodesOf(r)
    modifies y`parent, y`red, z`red, if c.In? then {c.n} else {}, header`parent
    ensures At(c, Bin(l, y, red, r), header, all) && z.red == old(y.red)
  {
    hide Linked, LinkedAround, NodesOf, NodesAround, Apart, ApartAround;
    TopIn(Nil, c);
    assert allocated(NodesOf(l)) && allocated(NodesOf(r)) && allocated(NodesAround(c));
    Replace(z, y, header, c);
    y.parent := z.parent;
    y.red, z.red := z.red, y.red;
    BinLinked(l, y, red, r, Holder(c, header));
  }

  /** `z` has two children: its successor `y` takes its place and its colour, and `z` takes the colour of `y`. */
  method UnlinkInner(z: Node, header: Node, ghost c: Hole, ghost t: Shape, ghost all: set<Node>)
    returns (x: Node?, xp: Node, ghost y: Node, ghost e: Hole, ghost rest: Shape)
    requires At(c, t, header, all) && t.Bin? && t.n == z && t.left.Bin? && t.right.Bin?
    modifies all, header`parent
    ensures Splits(t.right, y, z.red, e, rest) && x == Root(rest)
    ensures var c' := Stack(e, In(c, R, y, t.red, t.left));
      At(c', rest, header, all - {z}) && xp == Holder(c', header) && InOrder(Plug(c', rest)) == Rest(c, t)
  {
    hide Linked, LinkedAround, NodesOf, NodesAround, InOrder, Plug, Rest, Mk, LinkedSpine, Kid, AllOn;
    InnerParts(c, t, header, all);
    Near(c, t, header, all);
    ghost var l, r := t.left, t.right;
    var succ;
    succ, e, rest := Extreme(L, z.right, r, z);
    y := succ;
    assert Splits(r, y, y.red, e, rest);
    hide Splits;
    ghost var yred := y.red;
    SplitNodes(r, y, yred, e, rest);
    SplitOrder(r, y, yred, e, rest);
    KidIsField(succ);
    TopIn(t, c);
    assert allocated(NodesOf(l)) && allocated(NodesOf(Plug(e, rest))) && allocated(NodesAround(c));
    x := succ.right;
    xp := TakeChildren(succ, x, z, l, r, e, rest);
    TakeOver(z, succ, header, c, l, t.red, Plug(e, rest), all - {z});
    ghost var t' := Bin(l, y, t.red, Plug(e, rest));
    Down(c, t', R, header, all - {z});
    Deep(e, In(c, R, y, t.red, l), rest, header, all - {z});
    StackOrder(c, t, y, e, rest);
  }

  lemma KidIsField(n: Node)
    ensures Kid(n, L) == n.left && Kid(n, R) == n.right
  {
  }

  lemma BinLinked(l: Shape, n: Node, red: bool, r: Shape, p: Node)
    ensures Linked(Bin(l, n, red, r), p) <==>
      n.parent == p && n.red == red && n.left == Root(l) && n.right == Root(r) && Linked(l, n) && Linked(r, n)
    ensures NodesOf(Bin(l, n, red, r)) == NodesOf(l) + {n} + NodesOf(r)
    ensures Apart(Bin(l, n, red, r)) <==>
      n !in NodesOf(l) && n !in NodesOf(r) && NodesOf(l) !! NodesOf(r) && Apart(l) && Apart(r)
  {
  }

  lemma InnerParts(c: Hole, t: Shape, header: Node, all: set<Node>)
    requires At(c, t, header, all) && t.Bin?
    ensures Linked(t.left, t.n) && Linked(t.right, t.n) && t.n.left == Root(t.left) && t.n.right == Root(t.right)
    ensures Apart(t.left) && Apart(t.right) && NodesOf(t.left) !! NodesOf(t.right) && t.n !in NodesAround(c)
    ensures t.n !in NodesOf(t.left) && t.n !in NodesOf(t.right)
    ensures NodesOf(t.left) + NodesOf(t.right) + NodesAround(c) == all - {t.n}
    ensures NodesOf(t.left) !! NodesAround(c) && NodesOf(t.right) !! NodesAround(c)
  {
  }

  lemma {:induction false} PlugStack(e: Hole, base: Hole, t: Shape)
    ensures Plug(Stack(e, base), t) == Plug(base, Plug(e, t))
    decreases e
  {
    if e.In? {
      PlugStack(e.up, base, Mk(e.side, t, e.n, e.red, e.other));
    }
  }

  lemma StackOrder(c: Hole, t: Shape, y: Node, e: Hole, rest: Shape)
    requires t.Bin? && InOrder(t.right) == [y] + InOrder(Plug(e, rest))
    ensures InOrder(Plug(Stack(e, In(c, R, y, t.red, t.left)), rest)) == Rest(c, t)
  {
    var base := In(c, R, y, t.red, t.left);
    PlugStack(e, base, rest);
    InOrderPlug(base, Plug(e, rest));
  }

  // How the removal leaves the colours.

  /** Taking out a red node leaves a red-black tree, taking out a black one leaves its place one black node short. */
  lemma SingleShort(c: Hole, t: Shape)
    requires RedBlack(Plug(c, t)) && t.Bin? && (t.left.Nil? || t.right.Nil?)
    ensures if t.red then RedBlack(Plug(c, OnlyChild(t))) else Short(c, OnlyChild(t))
  {
    hide Fits;
    var x := OnlyChild(t);
    PlugFits(c, t);
    FitsAnyColour(c, Height(t), t.red);
    PlugFits(c, x);
    OnlyChildHeight(t);
    BelowIsSound(x);
  }

  lemma OnlyChildHeight(t: Shape)
    requires Sound(t) && t.Bin? && (t.left.Nil? || t.right.Nil?)
    ensures Sound(OnlyChild(t)) && Height(OnlyChild(t)) + (if t.red then 0 else 1) == Height(t)
    ensures t.red ==> !IsRed(OnlyChild(t))
  {
  }

  lemma {:induction false} FitsStack(e: Hole, base: Hole, base': Hole, h: nat, red: bool)
    requires base.In? && base'.In? && base == base'.(n := base.n)
    ensures Fits(Stack(e, base), h, red) == Fits(Stack(e, base'), h, red)
    decreases e
  {
    if e.In? {
      FitsStack(e.up, base, base', h + (if e.red then 0 else 1), e.red);
    }
  }

  lemma InnerShort(c: Hole, t: Shape, y: Node, yred: bool, e: Hole, rest: Shape)
    requires RedBlack(Plug(c, t)) && t.Bin? && Splits(t.right, y, yred, e, rest)
    ensures var c' := Stack(e, In(c, R, y, t.red, t.left));
      if yred then RedBlack(Plug(c', rest)) else Short(c', rest)
  {
    hide Fits, Sound, SoundBelow;
    var m := Mk(L, Nil, y, yred, rest);
    var base, base' := In(c, R, t.n, t.red, t.left), In(c, R, y, t.red, t.left);
    PlugStack(e, base, m);
    PlugFits(Stack(e, base), m);
    FitsStack(e, base, base', Height(m), IsRed(m));
    PlugFits(Stack(e, base'), m);
    SingleShort(Stack(e, base'), m);
  }

  lemma InnerEnds(side: Side, c: Hole, t: Shape, header: Node)
    requires t.Bin? && t.left.Bin? && t.right.Bin?
    ensures End(side, InOrder(Plug(c, t)), header) == End(side, Rest(c, t), header)
  {
    OrderAround(c, t);
    var b, a := Before(c) + InOrder(t.left), InOrder(t.right) + After(c);
    assert b != [] && a != [];
    hide Before, After, Plug, InOrder;
  }
}
