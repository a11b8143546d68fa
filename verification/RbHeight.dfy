// Why a red-black tree is kept: its height is logarithmic in the number of its nodes.

module RbHeight {
  import opened RbShape

  function Pow2(n: nat): (p: nat)
    ensures p > 0
  {
    if n == 0 then 1 else 2 * Pow2(n - 1)
  }

  lemma {:induction false} Pow2Grows(m: nat, n: nat)
    requires m <= n
    ensures Pow2(m) <= Pow2(n)
    decreases n
  {
    if m < n {
      Pow2Grows(m, n - 1);
    }
  }

  /** The nodes on a longest way down. */
  function Levels<N>(t: Tree<N>): nat
  {
    if t.Nil? then 0 else 1 + if Levels(t.left) > Levels(t.right) then Levels(t.left) else Levels(t.right)
  }

  lemma LevelsBelow<N>(t: Tree<N>, side: Side)
    requires t.Bin?
    ensures Levels(Sub(t, side)) < Levels(t)
  {
  }

  /** At most every other node on a way down is red. */
  lemma {:induction false} AlternateColours<N>(t: Tree<N>)
    requires Sound(t)
    ensures Levels(t) <= 2 * Height(t) + if IsRed(t) then 1 else 0
  {
    if t.Bin? {
      AlternateColours(t.left);
      AlternateColours(t.right);
    }
  }

  /** The black nodes alone fill a perfect tree. */
  lemma {:induction false} FullOfBlack<N>(t: Tree<N>)
    requires Sound(t)
    ensures |InOrder(t)| + 1 >= Pow2(Height(t))
  {
    if t.Bin? {
      FullOfBlack(t.left);
      FullOfBlack(t.right);
    }
  }

  /** At most 2 * log2(n + 1) levels for n nodes. */
  predicate Logarithmic(levels: nat, n: nat)
  {
    Pow2((levels + 1) / 2) <= n + 1
  }

  lemma RedBlackIsLogarithmic<N>(t: Tree<N>, rounds: nat)
    requires RedBlack(t) && rounds <= Levels(t)
    ensures Logarithmic(rounds, |InOrder(t)|)
  {
    AlternateColours(t);
    FullOfBlack(t);
    Pow2Grows((rounds + 1) / 2, Height(t));
  }

  lemma OnlyRed<N>(t: Tree<N>)
    requires Sound(t) && Height(t) == 0
    ensures t.Bin? ==> IsRed(t) && Sound(t.left) && Sound(t.right) && Height(t.left) == Height(t.right) == 0
    ensures t.Bin? ==> !IsRed(t.left) && !IsRed(t.right)
  {
  }

  /** A root without a right child has at most one node below it. */
  lemma RootHasRight<N>(t: Tree<N>)
    requires RedBlack(t) && |InOrder(t)| >= 3
    ensures t.right.Bin?
  {
    if t.right.Nil? {
      OnlyRed(t.left);
      OnlyRed(t.left.left);
      OnlyRed(t.left.right);
    }
  }
}
