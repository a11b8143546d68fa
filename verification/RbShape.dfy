// Shapes of red-black trees, and trees with a hole, without any pointers.

module RbShape {
  datatype Side = L | R

  function Other(s: Side): Side
  {
    if s == L then R else L
  }

  datatype Tree<N> = Nil | Bin(left: Tree<N>, n: N, red: bool, right: Tree<N>)

  /** The tree around a hole: the hole is the `side` child of `n`, whose other child is `other`. */
  datatype Ctx<N> = Top | In(up: Ctx<N>, side: Side, n: N, red: bool, other: Tree<N>)

  /** The node whose `side` child is `near` and whose other child is `far`. */
  function Mk<N>(side: Side, near: Tree<N>, n: N, red: bool, far: Tree<N>): Tree<N>
  {
    if side == L then Bin(near, n, red, far) else Bin(far, n, red, near)
  }

  function Sub<N>(t: Tree<N>, side: Side): Tree<N>
    requires t.Bin?
  {
    if side == L then t.left else t.right
  }

  lemma MkSub<N>(side: Side, near: Tree<N>, n: N, red: bool, far: Tree<N>)
    ensures var t := Mk(side, near, n, red, far);
      && t.Bin? && t.n == n && t.red == red && Sub(t, side) == near && Sub(t, Other(side)) == far
    ensures Mk(Other(side), far, n, red, near) == Mk(side, near, n, red, far)
    ensures Mk(side, near, n, red, far).(red := false) == Mk(side, near, n, false, far)
    ensures Mk(side, near, n, red, far).(red := true) == Mk(side, near, n, true, far)
    ensures Other(Other(side)) == side
  {
  }

  function Plug<N>(c: Ctx<N>, t: Tree<N>): Tree<N>
  {
    if c.Top? then t else Plug(c.up, Mk(c.side, t, c.n, c.red, c.other))
  }

  function InOrder<N>(t: Tree<N>): seq<N>
  {
    if t.Nil? then [] else InOrder(t.left) + [t.n] + InOrder(t.right)
  }

  /** What comes before and after the hole in key order. */
  function Before<N>(c: Ctx<N>): seq<N>
  {
    if c.Top? then [] else if c.side == L then Before(c.up) else Before(c.up) + InOrder(c.other) + [c.n]
  }

  function After<N>(c: Ctx<N>): seq<N>
  {
    if c.Top? then [] else if c.side == L then [c.n] + InOrder(c.other) + After(c.up) else After(c.up)
  }

  function Depth<N>(c: Ctx<N>): nat
  {
    if c.Top? then 0 else 1 + Depth(c.up)
  }

  lemma MkInOrder<N>(side: Side, near: Tree<N>, n: N, red: bool, far: Tree<N>)
    ensures InOrder(Mk(side, near, n, red, far)) ==
      if side == L then InOrder(near) + [n] + InOrder(far) else InOrder(far) + [n] + InOrder(near)
  {
  }

  lemma Regroup<N>(b: seq<N>, x: seq<N>, n: seq<N>, y: seq<N>, a: seq<N>)
    ensures b + (x + n + y) + a == b + x + (n + y + a)
    ensures b + (x + n + y) + a == (b + x + n) + y + a
  {
  }

  lemma {:induction false} InOrderPlug<N>(c: Ctx<N>, t: Tree<N>)
    ensures InOrder(Plug(c, t)) == Before(c) + InOrder(t) + After(c)
  {
    if c.In? {
      MkInOrder(c.side, t, c.n, c.red, c.other);
      hide InOrder;
      InOrderPlug(c.up, Mk(c.side, t, c.n, c.red, c.other));
      Regroup(Before(c.up), InOrder(t), [c.n], InOrder(c.other), After(c.up));
      Regroup(Before(c.up), InOrder(c.other), [c.n], InOrder(t), After(c.up));
    }
  }

  function IsRed<N>(t: Tree<N>): bool
  {
    t.Bin? && t.red
  }

  function Black<N>(t: Tree<N>): Tree<N>
  {
    if t.Nil? then t else t.(red := false)
  }

  /** Black nodes on the leftmost path. */
  function Height<N>(t: Tree<N>): nat
  {
    if t.Nil? then 0 else Height(t.left) + if t.red then 0 else 1
  }

  /** No red node has a red child, and all paths down carry the same number of black nodes. */
  predicate Sound<N>(t: Tree<N>)
  {
    t.Bin? ==>
      && Sound(t.left) && Sound(t.right)
      && Height(t.left) == Height(t.right)
      && (t.red ==> !IsRed(t.left) && !IsRed(t.right))
  }

  /** Sound but for a red root that may have red children. */
  predicate SoundBelow<N>(t: Tree<N>)
  {
    t.Bin? ==> Sound(t.left) && Sound(t.right) && Height(t.left) == Height(t.right)
  }

  predicate RedBlack<N>(t: Tree<N>)
  {
    Sound(t) && !IsRed(t)
  }

  /** A sound tree of black height `h` whose root has colour `red` makes the whole tree red-black. */
  predicate Fits<N>(c: Ctx<N>, h: nat, red: bool)
  {
    if c.Top? then !red
    else
      && Sound(c.other) && Height(c.other) == h
      && (c.red ==> !red && !IsRed(c.other))
      && Fits(c.up, h + (if c.red then 0 else 1), c.red)
  }

  lemma MkSound<N>(side: Side, near: Tree<N>, n: N, red: bool, far: Tree<N>)
    ensures Sound(Mk(side, near, n, red, far)) <==>
      Sound(near) && Sound(far) && Height(near) == Height(far) && (red ==> !IsRed(near) && !IsRed(far))
    ensures Height(near) == Height(far) ==> Height(Mk(side, near, n, red, far)) == Height(near) + if red then 0 else 1
    ensures IsRed(Mk(side, near, n, red, far)) == red
  {
  }

  lemma FitsIn<N>(c: Ctx<N>, h: nat, red: bool)
    requires c.In?
    ensures Fits(c, h, red) <==>
      && Sound(c.other) && Height(c.other) == h
      && (c.red ==> !red && !IsRed(c.other))
      && Fits(c.up, h + (if c.red then 0 else 1), c.red)
  {
  }

  lemma SubSound<N>(t: Tree<N>)
    requires t.Bin? && Sound(t)
    ensures forall s: Side :: Sound(Sub(t, s)) && Height(Sub(t, s)) + (if t.red then 0 else 1) == Height(t)
    ensures t.red ==> forall s: Side :: !IsRed(Sub(t, s))
  {
  }

  lemma BlackSound<N>(t: Tree<N>)
    requires Sound(t)
    ensures RedBlack(Black(t)) && Height(Black(t)) == Height(t) + if IsRed(t) then 1 else 0
  {
  }

  lemma {:induction false} PlugFits<N>(c: Ctx<N>, t: Tree<N>)
    ensures RedBlack(Plug(c, t)) <==> Sound(t) && Fits(c, Height(t), IsRed(t))
  {
    if c.In? {
      hide Sound, Height;
      var u := Mk(c.side, t, c.n, c.red, c.other);
      PlugFits(c.up, u);
      MkSound(c.side, t, c.n, c.red, c.other);
    }
  }

  // Rebalancing after an insertion. The focus is red and sound, and would fit if it were black.

  predicate RedFocus<N>(c: Ctx<N>, t: Tree<N>)
  {
    Sound(t) && IsRed(t) && Fits(c, Height(t), false)
  }

  /** Case 3: the uncle `u` is red too. */
  lemma RaiseRed<N>(c: Ctx<N>, t: Tree<N>)
    requires RedFocus(c, t) && c.In? && c.red && c.up.In? && IsRed(c.up.other)
    ensures var g := c.up; RedFocus(g.up, Mk(g.side, Mk(c.side, t, c.n, false, c.other), g.n, true, Black(g.other)))
  {
    hide Sound, Height, Fits;
    var g := c.up;
    FitsIn(c, Height(t), false);
    FitsIn(g, Height(t), true);
    MkSound(c.side, t, c.n, false, c.other);
    BlackSound(g.other);
    MkSound(g.side, Mk(c.side, t, c.n, false, c.other), g.n, true, Black(g.other));
  }

  /** Case 4: the focus is an inner grandchild, and its parent is rotated below it. */
  lemma TurnOutward<N>(c: Ctx<N>, t: Tree<N>)
    requires RedFocus(c, t) && c.In? && c.red && c.up.In? && c.side == Other(c.up.side)
    ensures var s := c.up.side;
      RedFocus(In(c.up, s, t.n, true, Sub(t, c.side)), Mk(s, c.other, c.n, true, Sub(t, s)))
  {
    hide Sound, Height, Fits;
    var s := c.up.side;
    FitsIn(c, Height(t), false);
    SubSound(t);
    MkSound(s, c.other, c.n, true, Sub(t, s));
    FitsIn(In(c.up, s, t.n, true, Sub(t, c.side)), Height(t), false);
  }

  /** Case 5: the focus is an outer grandchild and its uncle is black; rotating the grandparent finishes. */
  lemma TurnOver<N>(c: Ctx<N>, t: Tree<N>)
    requires RedFocus(c, t) && c.In? && c.red && c.up.In? && c.side == c.up.side && !IsRed(c.up.other)
    ensures var g, s := c.up, c.side;
      RedBlack(Plug(g.up, Mk(s, t, c.n, false, Mk(s, c.other, g.n, true, g.other))))
  {
    hide Sound, Height, Fits;
    var g, s := c.up, c.side;
    FitsIn(c, Height(t), false);
    FitsIn(g, Height(t), true);
    MkSound(s, c.other, g.n, true, g.other);
    MkSound(s, t, c.n, false, Mk(s, c.other, g.n, true, g.other));
    PlugFits(g.up, Mk(s, t, c.n, false, Mk(s, c.other, g.n, true, g.other)));
  }

  lemma RedParentHasParent<N>(c: Ctx<N>, t: Tree<N>)
    requires RedFocus(c, t) && c.In? && c.red
    ensures c.up.In? && !c.up.red && !IsRed(c.other)
  {
    FitsIn(c, Height(t), false);
    if c.up.In? {
      FitsIn(c.up, Height(t), true);
    }
  }

  lemma InsertionDone<N>(c: Ctx<N>, t: Tree<N>)
    requires RedFocus(c, t) && (c.Top? || !c.red)
    ensures RedBlack(Black(Plug(c, t)))
  {
    if c.In? {
      FitsIn(c, Height(t), false);
      FitsIn(c, Height(t), true);
      PlugFits(c, t);
    } else {
      BlackSound(t);
    }
  }

  // Rebalancing after a removal. The focus is one black node short of fitting.

  predicate Short<N>(c: Ctx<N>, t: Tree<N>)
  {
    SoundBelow(t) && Fits(c, Height(t) + 1, false)
  }

  lemma {:induction false} FitsAnyColour<N>(c: Ctx<N>, h: nat, red: bool)
    requires Fits(c, h, red)
    ensures Fits(c, h, false)
  {
  }

  lemma BelowIsSound<N>(t: Tree<N>)
    ensures SoundBelow(t) && !IsRed(t) ==> Sound(t)
    ensures SoundBelow(t) && IsRed(t) ==> RedBlack(Black(t)) && Height(Black(t)) == Height(t) + 1
    ensures SoundBelow(t) ==> RedBlack(Black(t))
    ensures Sound(t) ==> SoundBelow(t)
  {
  }

  lemma BrotherExists<N>(c: Ctx<N>, t: Tree<N>)
    requires Short(c, t) && c.In?
    ensures c.other.Bin?
  {
  }

  /** Case 1: the brother is red; one rotation gives a black brother under a red parent. */
  lemma TurnRedBrother<N>(c: Ctx<N>, t: Tree<N>)
    requires Short(c, t) && c.In? && IsRed(c.other) && !IsRed(t)
    ensures var s, b := c.side, c.other;
      Short(In(In(c.up, s, b.n, false, Sub(b, Other(s))), s, c.n, true, Sub(b, s)), t)
    ensures !c.red && !IsRed(Sub(c.other, c.side)) && Sub(c.other, c.side).Bin?
  {
    hide Sound, SoundBelow, Height, Fits;
    var s, b, h := c.side, c.other, Height(t) + 1;
    FitsIn(c, h, false);
    SubSound(b);
    FitsIn(In(c.up, s, b.n, false, Sub(b, Other(s))), h, true);
    FitsIn(In(In(c.up, s, b.n, false, Sub(b, Other(s))), s, c.n, true, Sub(b, s)), h, false);
    PositiveHeight(Sub(b, s));
  }

  lemma PositiveHeight<N>(t: Tree<N>)
    ensures Height(t) > 0 ==> t.Bin?
  {
  }

  /** Case 2: brother and nephews are black; the shortage moves up. */
  lemma PassUp<N>(c: Ctx<N>, t: Tree<N>)
    requires Short(c, t) && c.In? && !IsRed(t) && c.other.Bin? && !c.other.red
    requires !IsRed(c.other.left) && !IsRed(c.other.right)
    ensures Short(c.up, Mk(c.side, t, c.n, c.red, c.other.(red := true)))
  {
    hide Sound, Fits;
    var b, h := c.other, Height(t) + 1;
    FitsIn(c, h, false);
    BelowIsSound(t);
    RedderSound(b);
    FitsAnyColour(c.up, h + (if c.red then 0 else 1), c.red);
  }

  lemma RedderSound<N>(b: Tree<N>)
    requires Sound(b) && b.Bin? && !b.red && !IsRed(b.left) && !IsRed(b.right)
    ensures Sound(b.(red := true)) && Height(b.(red := true)) == Height(b) - 1
  {
  }

  /** Case 3: only the near nephew is red; rotating the brother makes the far nephew red. */
  lemma TurnBrother<N>(c: Ctx<N>, t: Tree<N>)
    requires Short(c, t) && c.In? && c.other.Bin? && !c.other.red
    requires IsRed(Sub(c.other, c.side)) && !IsRed(Sub(c.other, Other(c.side)))
    ensures var s, b := c.side, c.other;
      var w := Sub(b, s);
      Short(In(c.up, s, c.n, c.red,
               Mk(s, Sub(w, s), w.n, false, Mk(s, Sub(w, Other(s)), b.n, true, Sub(b, Other(s))))), t)
  {
    hide Sound, Height, Fits;
    var s, b, h := c.side, c.other, Height(t) + 1;
    var w := Sub(b, s);
    FitsIn(c, h, false);
    SubSound(b);
    SubSound(w);
    var below := Mk(s, Sub(w, Other(s)), b.n, true, Sub(b, Other(s)));
    MkSound(s, Sub(w, Other(s)), b.n, true, Sub(b, Other(s)));
    MkSound(s, Sub(w, s), w.n, false, below);
    FitsIn(In(c.up, s, c.n, c.red, Mk(s, Sub(w, s), w.n, false, below)), h, false);
  }

  /** Case 4: the far nephew is red; rotating the parent makes up the shortage. */
  lemma TurnParent<N>(c: Ctx<N>, t: Tree<N>)
    requires Short(c, t) && c.In? && !IsRed(t) && c.other.Bin? && !c.other.red
    requires IsRed(Sub(c.other, Other(c.side)))
    ensures var s, b := c.side, c.other;
      RedBlack(Plug(c.up, Mk(s, Mk(s, t, c.n, false, Sub(b, s)), b.n, c.red, Black(Sub(b, Other(s))))))
  {
    hide Sound, SoundBelow, Height, Fits;
    var s, b, h := c.side, c.other, Height(t) + 1;
    var f := Sub(b, Other(s));
    FitsIn(c, h, false);
    BelowIsSound(t);
    SubSound(b);
    BlackSound(f);
    MkSound(s, t, c.n, false, Sub(b, s));
    MkSound(s, Mk(s, t, c.n, false, Sub(b, s)), b.n, c.red, Black(f));
    PlugFits(c.up, Mk(s, Mk(s, t, c.n, false, Sub(b, s)), b.n, c.red, Black(f)));
  }

  lemma RemovalDone<N>(c: Ctx<N>, t: Tree<N>)
    requires Short(c, t) && (c.Top? || IsRed(t))
    ensures RedBlack(Plug(c, Black(t)))
  {
    BelowIsSound(t);
    PlugFits(c, Black(t));
  }
}
