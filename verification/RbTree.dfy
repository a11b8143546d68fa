// dbase::stl::rb_tree: a sorted sequence of nodes kept in a red-black tree.

module RbTree {
  import opened RbShape
  import opened RbHeight
  import opened RbNodes
  import opened RbUnlink
  import opened RbInsert
  import opened RbErase
  import opened RbIterate

  ghost predicate Sorted(s: seq<Node>)
  {
    forall i, j :: 0 <= i < j < |s| ==> s[i].key <= s[j].key
  }

  /** `s` with `n` put in front of position `k`. */
  ghost function Inserted(s: seq<Node>, k: nat, n: Node): seq<Node>
    requires k <= |s|
  {
    s[..k] + [n] + s[k..]
  }

  lemma HoleOrder(c: Hole, header: Node, all: set<Node>)
    requires At(c, Nil, header, all)
    ensures InOrder(Plug(c, Nil)) == Before(c) + After(c)
    ensures c.Top? ==> Before(c) == After(c) == []
    ensures c.In? ==> c.n != header
    ensures c.In? && c.side == L ==>
      After(c) != [] && After(c)[0] == c.n && (Before(c) == [] || Before(c)[0] != c.n)
    ensures c.In? && c.side == R ==>
      Before(c) != [] && Before(c)[|Before(c)| - 1] == c.n && (After(c) == [] || After(c)[|After(c)| - 1] != c.n)
  {
    InOrderPlug(c, Nil);
    if c.In? {
      AroundNode(c, c.n);
    }
  }

  /** The first half of insert_node_at: hangs `node` into a free hole and keeps the ends up. */
  method LinkLeaf(x: Node, node: Node, side: Side, header: Node, ghost c: Hole, ghost all: set<Node>)
    requires At(c, Nil, header, all) && x == Holder(c, header) && (c.In? ==> c.side == side)
    requires node !in all && node != header && node.left == null && node.right == null
    requires forall s: Side :: Kid(header, s) == End(s, InOrder(Plug(c, Nil)), header)
    modifies all, node`parent, header`parent, header`left, header`right
    ensures At(c, Bin(Nil, node, node.red, Nil), header, all + {node})
    ensures forall s: Side :: Kid(header, s) == End(s, Before(c) + [node] + After(c), header)
  {
    HoleOrder(c, header, all);
    assert Kid(header, L) == End(L, Before(c) + After(c), header)
        && Kid(header, R) == End(R, Before(c) + After(c), header);
    hide InOrder, At, Plug, Before, After;
    ghost var b, a := Before(c), After(c);
    FillHole(x, node, side, header, c, all);
    if x == header {
      header.left := node;
      header.right := node;
    } else if Kid(header, side) == x {
      SetKid(header, side, node);
    }
    assert Kid(header, L) == End(L, b + [node] + a, header);
    assert Kid(header, R) == End(R, b + [node] + a, header);
  }

  method LinkAndRebalance(x: Node, node: Node, side: Side, header: Node, ghost c: Hole, ghost all: set<Node>)
    returns (ghost whole: Shape)
    requires At(c, Nil, header, all) && x == Holder(c, header) && (c.In? ==> c.side == side) && Fits(c, 0, false)
    requires node !in all && node != header && node.left == null && node.right == null
    requires forall s: Side :: Kid(header, s) == End(s, InOrder(Plug(c, Nil)), header)
    modifies all, node, header`parent, header`left, header`right
    ensures At(Top, whole, header, all + {node}) && RedBlack(whole) && InOrder(whole) == Before(c) + [node] + After(c)
    ensures forall s: Side :: Kid(header, s) == End(s, InOrder(whole), header)
  {
    assert header !in all;
    hide RedBlack, InOrder, At, Plug, Before, After, Fits, End, Kid;
    LinkLeaf(x, node, side, header, c, all);
    LeafOrder(c, node);
    whole := InsertRebalance(node, header, c, Bin(Nil, node, node.red, Nil), all + {node});
  }

  lemma LeafOrder(c: Hole, node: Node)
    ensures InOrder(Plug(c, Bin(Nil, node, node.red, Nil))) == Before(c) + [node] + After(c)
  {
    InOrderPlug(c, Bin(Nil, node, node.red, Nil));
  }

  method EraseAt(z: Node, header: Node, ghost whole: Shape, ghost all: set<Node>, ghost i: nat)
    returns (next: Node, ghost whole': Shape)
    requires At(Top, whole, header, all) && RedBlack(whole) && i < |InOrder(whole)| && z == InOrder(whole)[i]
    requires forall s: Side :: Kid(header, s) == End(s, InOrder(whole), header)
    modifies all, header`left, header`right, header`parent
    ensures At(Top, whole', header, all - {z}) && RedBlack(whole')
    ensures InOrder(whole') == InOrder(whole)[..i] + InOrder(whole)[i + 1..]
    ensures forall s: Side :: Kid(header, s) == End(s, InOrder(whole'), header)
    ensures next == NodeAt(whole', header, i)
  {
    ghost var c, t := Locate(whole, header, all, i);
    KidIsField(header);
    hide RedBlack, InOrder, At, Plug, Before, After, Kid, End;
    next := Inc(z, header, whole, all, i);
    whole' := EraseRebalance(z, header, c, t, all);
  }

  class RbTree {
    const header: Node
    var nodeCount: nat
    ghost var whole: Shape
    ghost var all: set<Node>

    /** The nodes in key order. */
    ghost function Contents(): seq<Node>
      reads this
    {
      InOrder(whole)
    }

    /** A red-black tree of the nodes `all` hangs from the header, which also knows its ends. */
    ghost predicate WellFormed()
      reads this, header, all
    {
      && At(Top, whole, header, all) && RedBlack(whole) && header.red
      && (forall s: Side :: Kid(header, s) == End(s, Contents(), header))
      && nodeCount == |Contents()|
    }

    ghost predicate Valid()
      reads this, header, all
    {
      WellFormed() && Sorted(Contents())
    }

    constructor ()
      ensures Valid() && Contents() == [] && fresh(header)
    {
      header := new Node(0);
      nodeCount := 0;
      whole := Nil;
      all := {};
      new;
      header.red := true;
      header.left, header.right := header, header;
    }

    /** The hole to the `side` of `x`, which has no child there. */
    ghost predicate FreeHole(c: Hole, x: Node, side: Side)
      reads this, header, all
    {
      && At(c, Nil, header, all) && Plug(c, Nil) == whole
      && x == Holder(c, header) && (if c.In? then c.side == side else side == L)
    }

    /** insert_node_at: links `node` at a free hole and rebalances. */
    method InsertNodeAt(x: Node, node: Node, side: Side, ghost c: Hole)
      requires WellFormed() && FreeHole(c, x, side)
      requires node !in all && node != header && node.left == null && node.right == null
      modifies this`nodeCount, this`whole, this`all, all, node, header`parent, header`left, header`right
      ensures WellFormed() && all == old(all) + {node} && Contents() == Before(c) + [node] + After(c)
    {
      HoleFits(c, x, side);
      assert header.red && header !in all;
      hide RedBlack, InOrder, At, Plug, Before, After, Fits, End, Kid, FreeHole;
      whole := LinkAndRebalance(x, node, side, header, c, all);
      all := all + {node};
      nodeCount := nodeCount + 1;
    }

    lemma HoleFits(c: Hole, x: Node, side: Side)
      requires WellFormed() && FreeHole(c, x, side)
      ensures Fits(c, 0, false) && At(c, Nil, header, all) && x == Holder(c, header) && (c.In? ==> c.side == side)
      ensures forall s: Side :: Kid(header, s) == End(s, InOrder(Plug(c, Nil)), header)
      ensures nodeCount == |Before(c)| + |After(c)|
    {
      PlugFits(c, Nil);
      HoleOrder(c, header, all);
      hide At, Kid, End;
    }

    /** get_insert_multi_pos: the free hole after all nodes with keys up to `key`. */
    method GetInsertMultiPos(key: int) returns (y: Node, side: Side, ghost c: Hole)
      requires Valid()
      ensures FreeHole(c, y, side) && AtMost(Before(c), key) && Above(After(c), key)
    {
      hide RedBlack, InOrder, Linked, LinkedAround, NodesOf, NodesAround, Before, After, Sorted, Kid, At, Plug;
      PlugTop(Top, whole);
      TopOrder();
      var x := header.parent;
      Near(Top, whole, header, all);
      y, side, c := header, L, Top;
      ghost var cur := whole;
      while x != null
        invariant At(c, cur, header, all) && Plug(c, cur) == whole && x == Root(cur)
        invariant y == Holder(c, header) && side == if c.In? then c.side else L
        invariant AtMost(Before(c), key) && Above(After(c), key)
        decreases cur
      {
        Near(c, cur, header, all);
        y := x;
        side := if key < x.key then L else R;
        Narrow(c, cur, side, key);
        Down(c, cur, side, header, all);
        c, cur := In(c, side, x, cur.red, Sub(cur, Other(side))), Sub(cur, side);
        x := Kid(x, side);
      }
    }

    /** lower_bound: the first node whose key is not less than `key`, or the header; `rounds` counts its loop. */
    method LowerBound(key: int) returns (y: Node, ghost k: nat, ghost rounds: nat)
      requires Valid()
      ensures k <= |Contents()| && y == NodeAt(whole, header, k)
      ensures AtMost(Contents()[..k], key - 1) && AtLeast(Contents()[k..], key)
      ensures y == header <==> AtMost(Contents(), key - 1)
      ensures y != header ==> y in Contents() && y.key >= key
      ensures Logarithmic(rounds, |Contents()|)
    {
      hide RedBlack, InOrder, Linked, LinkedAround, NodesOf, NodesAround, Before, After, Sorted, Kid, At, Plug, Levels,
        Logarithmic;
      PlugTop(Top, whole);
      TopOrder();
      var x := header.parent;
      Near(Top, whole, header, all);
      y := header;
      ghost var c, cur := Top, whole;
      rounds := 0;
      while x != null
        invariant At(c, cur, header, all) && Plug(c, cur) == whole && x == Root(cur)
        invariant rounds + Levels(cur) <= Levels(whole)
        invariant y == if After(c) == [] then header else After(c)[0]
        invariant AtMost(Before(c), key - 1) && Above(After(c), key - 1)
        decreases cur
      {
        ghost var side := if x.key < key then R else L;
        Near(c, cur, header, all);
        KidIsField(x);
        Narrow(c, cur, side, key - 1);
        LevelsBelow(cur, side);
        Down(c, cur, side, header, all);
        SidesOfIn(c, side, cur.n, cur.red, Sub(cur, Other(side)));
        rounds := rounds + 1;
        c, cur := In(c, side, x, cur.red, Sub(cur, Other(side))), Sub(cur, side);
        if !(x.key < key) {
          y, x := x, x.left;
        } else {
          x := x.right;
        }
      }
      RedBlackIsLogarithmic(whole, rounds);
      HoleOrder(c, header, all);
      k := |Before(c)|;
      assert Contents()[..k] == Before(c) && Contents()[k..] == After(c);
      Positions(k);
      if After(c) == [] {
        assert Contents()[..k] == Contents();
      } else {
        assert After(c)[0] == Contents()[k] == y;
      }
    }

    /** find: a node with the key, or the header when there is none. */
    method FindKey(key: int) returns (y: Node, ghost rounds: nat)
      requires Valid()
      ensures y == header <==> forall i :: 0 <= i < |Contents()| ==> Contents()[i].key != key
      ensures y != header ==> y in Contents() && y.key == key
      ensures Logarithmic(rounds, |Contents()|)
    {
      ghost var k;
      y, k, rounds := LowerBound(key);
      Positions(k);
      hide RedBlack, InOrder, At, Kid, Sorted;
      assert forall i :: 0 <= i < k ==> Contents()[..k][i] == Contents()[i];
      assert forall i :: k <= i < |Contents()| ==> Contents()[k..][i - k] == Contents()[i];
      if k < |Contents()| {
        SortedFrom(Contents(), k);
      }
      if y == header || key < y.key {
        y := header;
      }
    }

    /** emplace_multi: the node goes behind all nodes whose keys are not greater. */
    method EmplaceMulti(node: Node) returns (ghost k: nat)
      requires Valid() && node !in all && node != header && node.left == null && node.right == null
      modifies this`nodeCount, this`whole, this`all, all, node, header`parent, header`left, header`right
      ensures Valid() && all == old(all) + {node}
      ensures k <= |old(Contents())| && Contents() == Inserted(old(Contents()), k, node)
      ensures AtMost(old(Contents())[..k], node.key) && Above(old(Contents())[k..], node.key)
    {
      var y, side;
      ghost var c;
      y, side, c := GetInsertMultiPos(node.key);
      k := InsertAtHole(y, node, side, c);
    }

    /** Insertion at a hole that suits the key keeps the order. */
    method InsertAtHole(y: Node, node: Node, side: Side, ghost c: Hole) returns (ghost k: nat)
      requires Valid() && FreeHole(c, y, side)
      requires node !in all && node != header && node.left == null && node.right == null
      requires AtMost(Before(c), node.key) && AtLeast(After(c), node.key)
      modifies this`nodeCount, this`whole, this`all, all, node, header`parent, header`left, header`right
      ensures Valid() && all == old(all) + {node}
      ensures k == |Before(c)| <= |old(Contents())| && Contents() == Inserted(old(Contents()), k, node)
      ensures old(Contents())[..k] == Before(c) && old(Contents())[k..] == After(c)
    {
      HoleOrder(c, header, all);
      k := |Before(c)|;
      assert Contents()[..k] == Before(c) && Contents()[k..] == After(c);
      InsertedSorted(Contents(), k, node);
      hide RedBlack, InOrder, At, Plug, Before, After, Sorted, Kid;
      InsertNodeAt(y, node, side, c);
    }

    lemma Ends()
      requires WellFormed()
      ensures header.left == End(L, Contents(), header) && header.right == End(R, Contents(), header)
    {
      KidIsField(header);
    }

    /** get_insert_unique_pos: as above, and whether the key is new. */
    method GetInsertUniquePos(key: int) returns (y: Node, side: Side, absent: bool, ghost c: Hole)
      requires Valid()
      ensures FreeHole(c, y, side) && AtMost(Before(c), key) && Above(After(c), key)
      ensures absent <==> forall i :: 0 <= i < |Contents()| ==> Contents()[i].key != key
      ensures !absent ==> AnswersFor(Contents(), |Before(c)|, key, y)
    {
      y, side, c := GetInsertMultiPos(key);
      HoleOrder(c, header, all);
      Ends();
      hide RedBlack, At, Before, After, Kid, Plug, Sorted, InOrder;
      ghost var b, a := Before(c), After(c);
      assert Contents() == b + a;
      var j := y;
      if side == L {
        if y == header || j == header.left {
          assert b == [];
          return y, side, true, c;
        }
        assert Contents()[|b|] == y;
        j := Dec(j, header, whole, all, |b|);
      }
      assert b != [] && j == b[|b| - 1] == Contents()[|b| - 1];
      absent := j.key < key;
    }

    /** emplace_unique: the contents change exactly when the key was not there. Otherwise the iterator returned
        denotes the node with the key only if that has no right child, and else the node after it. */
    method EmplaceUnique(node: Node) returns (r: Node, inserted: bool, ghost k: nat)
      requires Valid() && node !in all && node != header && node.left == null && node.right == null
      modifies this`nodeCount, this`whole, this`all, all, node, header`parent, header`left, header`right
      ensures Valid() && k <= |old(Contents())|
      ensures inserted <==> forall i :: 0 <= i < |old(Contents())| ==> old(Contents())[i].key != node.key
      ensures Contents() == if inserted then Inserted(old(Contents()), k, node) else old(Contents())
      ensures if inserted then r == node else AnswersFor(Contents(), k, node.key, r)
    {
      var y, side;
      ghost var c;
      y, side, inserted, c := GetInsertUniquePos(node.key);
      k := |Before(c)|;
      HoleOrder(c, header, all);
      r := y;
      if inserted {
        k := InsertAtHole(y, node, side, c);
        r := node;
      }
    }

    /** With three nodes or more there always is a key for which emplace_unique returns an iterator to another one. */
    lemma SomeKeyMisanswered() returns (k: nat)
      requires Valid() && nodeCount >= 3
      ensures 0 < k <= |Contents()|
      ensures forall r :: AnswersFor(Contents(), k, Contents()[k - 1].key, r) ==> r.key != Contents()[k - 1].key
    {
      RootHasRight(whole);
      Near(Top, whole, header, all);
      k := |InOrder(whole.left)| + 1;
      assert Contents()[k - 1] == whole.n && whole.n.right != null;
      hide At, RedBlack, InOrder, Kid, Sorted;
    }

    /** Erases the node at position `i` and returns the one after it. */
    method Erase(z: Node, ghost i: nat) returns (next: Node)
      requires Valid() && i < |Contents()| && z == Contents()[i]
      modifies this`nodeCount, this`whole, this`all, all, header`parent, header`left, header`right
      ensures Valid() && Contents() == old(Contents())[..i] + old(Contents())[i + 1..] && all == old(all) - {z}
      ensures next == if i < |Contents()| then Contents()[i] else header
    {
      ErasedSorted(Contents(), i);
      hide RedBlack, At, Kid, End, Sorted, InOrder;
      next, whole := EraseAt(z, header, whole, all, i);
      all := all - {z};
      nodeCount := nodeCount - 1;
    }

    /** Links `node` beside the i-th node, which has no child on that side. */
    method InsertBeside(x: Node, node: Node, side: Side, ghost i: nat) returns (ghost k: nat)
      requires Valid() && i < |Contents()| && x == Contents()[i] && Kid(x, side) == null
      requires node !in all && node != header && node.left == null && node.right == null
      requires side == L ==> node.key <= x.key && (i > 0 ==> Contents()[i - 1].key <= node.key)
      requires side == R ==> x.key <= node.key && (i + 1 < |Contents()| ==> node.key <= Contents()[i + 1].key)
      modifies this`nodeCount, this`whole, this`all, all, node, header`parent, header`left, header`right
      ensures Valid() && k == (if side == L then i else i + 1) && Contents() == Inserted(old(Contents()), k, node)
    {
      ghost var c := HoleBeside(whole, header, all, i, side);
      SortedSplit(Contents(), if side == L then i else i + 1, node.key);
      hide At, RedBlack, InOrder, Before, After, Plug, Kid, Sorted, AtMost, AtLeast;
      k := InsertAtHole(x, node, side, c);
    }

    /** emplace_multi_use_hint and insert_multi_use_hint: the node goes right before the hint when its key fits there,
        and otherwise, as without a hint, behind all nodes whose keys are not greater. */
    method EmplaceMultiUseHint(hint: Node, node: Node, ghost h: nat) returns (ghost k: nat)
      requires Valid() && node !in all && node != header && node.left == null && node.right == null
      requires h <= |Contents()| && hint == NodeAt(whole, header, h)
      modifies this`nodeCount, this`whole, this`all, all, node, header`parent, header`left, header`right
      ensures Valid() && k <= |old(Contents())| && Contents() == Inserted(old(Contents()), k, node)
      ensures if FitsBefore(old(Contents()), h, node.key) then k == h
              else AtMost(old(Contents())[..k], node.key) && Above(old(Contents())[k..], node.key)
    {
      Ends();
      Positions(h);
      hide At, RedBlack, InOrder, Kid;
      if nodeCount == 0 {
        k := InsertFirst(node);
      } else if hint == header.left {
        if node.key < hint.key {
          EndIsFree(whole, header, all, L);
          k := InsertBeside(hint, node, L, 0);
        } else {
          k := EmplaceMulti(node);
        }
      } else if hint == header {
        if !(node.key < header.right.key) {
          EndIsFree(whole, header, all, R);
          k := InsertBeside(header.right, node, R, h - 1);
        } else {
          k := EmplaceMulti(node);
        }
      } else {
        var before := Dec(hint, header, whole, all, h);
        if !(node.key < before.key) && !(hint.key < node.key) {
          if before.right == null {
            KidIsField(before);
            k := InsertBeside(before, node, R, h - 1);
            return;
          } else if hint.left == null {
            KidIsField(hint);
            k := InsertBeside(hint, node, L, h);
            return;
          }
        }
        k := EmplaceMulti(node);
      }
    }

    method InsertFirst(node: Node) returns (ghost k: nat)
      requires Valid() && Contents() == []
      requires node !in all && node != header && node.left == null && node.right == null
      modifies this`nodeCount, this`whole, this`all, all, node, header`parent, header`left, header`right
      ensures Valid() && k == 0 && Contents() == Inserted([], 0, node)
    {
      EmptyOrder(whole);
      PlugTop(Top, Nil);
      TopOrder();
      k := InsertAtHole(header, node, L, Top);
    }

    /** emplace_unique_use_hint and insert_unique_use_hint: whatever the hint, as without one. */
    method EmplaceUniqueUseHint(hint: Node, node: Node, ghost h: nat) returns (r: Node, inserted: bool, ghost k: nat)
      requires Valid() && node !in all && node != header && node.left == null && node.right == null
      requires h <= |Contents()| && hint == NodeAt(whole, header, h)
      modifies this`nodeCount, this`whole, this`all, all, node, header`parent, header`left, header`right
      ensures Valid() && k <= |old(Contents())|
      ensures inserted <==> forall i :: 0 <= i < |old(Contents())| ==> old(Contents())[i].key != node.key
      ensures Contents() == if inserted then Inserted(old(Contents()), k, node) else old(Contents())
      ensures if inserted then r == node else AnswersFor(Contents(), k, node.key, r)
    {
      Ends();
      Positions(h);
      hide At, RedBlack, InOrder, Kid;
      r, inserted := node, true;
      if nodeCount == 0 {
        k := InsertFirst(node);
      } else if hint == header.left {
        if node.key < hint.key {
          EndIsFree(whole, header, all, L);
          k := InsertBeside(hint, node, L, 0);
        } else {
          r, inserted, k := EmplaceUnique(node);
        }
      } else if hint == header {
        if header.right.key < node.key {
          EndIsFree(whole, header, all, R);
          k := InsertBeside(header.right, node, R, h - 1);
        } else {
          r, inserted, k := EmplaceUnique(node);
        }
      } else {
        r, inserted, k := EmplaceUniqueBetween(hint, node, h);
      }
    }

    /** The last case of emplace_unique_use_hint: the hint is a node with another one before it. */
    method EmplaceUniqueBetween(hint: Node, node: Node, ghost h: nat) returns (r: Node, inserted: bool, ghost k: nat)
      requires Valid() && node !in all && node != header && node.left == null && node.right == null
      requires 0 < h < |Contents()| && hint == NodeAt(whole, header, h)
      modifies this`nodeCount, this`whole, this`all, all, node, header`parent, header`left, header`right
      ensures Valid() && k <= |old(Contents())|
      ensures inserted <==> forall i :: 0 <= i < |old(Contents())| ==> old(Contents())[i].key != node.key
      ensures Contents() == if inserted then Inserted(old(Contents()), k, node) else old(Contents())
      ensures if inserted then r == node else AnswersFor(Contents(), k, node.key, r)
    {
      Positions(h);
      hide At, RedBlack, InOrder, Kid, Sorted;
      r, inserted := node, true;
      var before := Dec(hint, header, whole, all, h);
      if before.key < node.key && node.key < hint.key {
        KeyBetween(Contents(), h, node.key);
        if before.right == null {
          KidIsField(before);
          k := InsertBeside(before, node, R, h - 1);
          return;
        } else if hint.left == null {
          KidIsField(hint);
          k := InsertBeside(hint, node, L, h);
          return;
        }
      }
      r, inserted, k := EmplaceUnique(node);
    }

    lemma Positions(h: nat)
      requires WellFormed() && h <= |Contents()|
      ensures NodeAt(whole, header, h) == header <==> h == |Contents()|
      ensures Contents() != [] && NodeAt(whole, header, h) == header.left ==> h == 0
      ensures |Contents()| == 0 <==> nodeCount == 0
    {
      if h < |Contents()| {
        OrderNode(whole, Contents()[h]);
        if h > 0 {
          OrderDistinct(whole, 0, h);
        }
      }
      KidIsField(header);
      if Contents() != [] {
        OrderNode(whole, Contents()[0]);
      }
    }
  }

  /** Before position `h` a key is in order; before the first node only a smaller key counts as fitting. */
  ghost predicate FitsBefore(s: seq<Node>, h: nat, key: int)
    requires h <= |s|
  {
    (h > 0 ==> s[h - 1].key <= key) && (h < |s| ==> if h == 0 then key < s[h].key else key <= s[h].key)
  }

  /** `s[k - 1]` has the key and `r` is that node if it has no right child, or else the next one, whose key differs. */
  ghost predicate AnswersFor(s: seq<Node>, k: nat, key: int, r: Node)
    reads if 0 < k <= |s| then {s[k - 1]} else {}
  {
    && 0 < k <= |s| && s[k - 1].key == key
    && (s[k - 1].right == null ==> r == s[k - 1])
    && (s[k - 1].right != null ==> k < |s| && r == s[k] && r.key != key)
  }

  lemma SortedSplit(s: seq<Node>, k: nat, key: int)
    requires Sorted(s) && k <= |s|
    requires (k > 0 ==> s[k - 1].key <= key) && (k < |s| ==> key <= s[k].key)
    ensures AtMost(s[..k], key) && AtLeast(s[k..], key)
  {
  }

  lemma KeyBetween(s: seq<Node>, h: nat, key: int)
    requires Sorted(s) && 0 < h < |s| && s[h - 1].key < key < s[h].key
    ensures forall i :: 0 <= i < |s| ==> s[i].key != key
  {
  }

  lemma SortedFrom(s: seq<Node>, k: nat)
    requires Sorted(s) && k < |s|
    ensures forall i :: k <= i < |s| ==> s[k].key <= s[i].key
  {
  }

  lemma ErasedSorted(s: seq<Node>, i: nat)
    requires Sorted(s) && i < |s|
    ensures Sorted(s[..i] + s[i + 1..])
  {
  }

  ghost predicate AtMost(s: seq<Node>, key: int)
  {
    forall i :: 0 <= i < |s| ==> s[i].key <= key
  }

  ghost predicate Above(s: seq<Node>, key: int)
  {
    forall i :: 0 <= i < |s| ==> key < s[i].key
  }

  ghost predicate AtLeast(s: seq<Node>, key: int)
  {
    forall i :: 0 <= i < |s| ==> key <= s[i].key
  }

  lemma TopOrder()
    ensures Before<Node>(Top) == [] && After<Node>(Top) == []
  {
  }

  /** One step down a search: what is passed on the way is on the right side of `key`. */
  lemma Narrow(c: Hole, t: Shape, side: Side, key: int)
    requires Sorted(InOrder(Plug(c, t))) && t.Bin? && side == if key < t.n.key then L else R
    requires AtMost(Before(c), key) && Above(After(c), key)
    ensures var d := In(c, side, t.n, t.red, Sub(t, Other(side))); AtMost(Before(d), key) && Above(After(d), key)
    ensures Plug(In(c, side, t.n, t.red, Sub(t, Other(side))), Sub(t, side)) == Plug(c, t)
  {
    hide Plug, InOrder, Sorted, Before, After;
    OrderAround(c, t);
    PlugDown(c, t, side);
    SortedAround(Before(c) + InOrder(t.left), t.n, InOrder(t.right) + After(c));
    SidesOfIn(c, side, t.n, t.red, Sub(t, Other(side)));
    if side == L {
      assert [t.n] + InOrder(t.right) + After(c) == [t.n] + (InOrder(t.right) + After(c));
    }
  }

  lemma SortedAround(b: seq<Node>, n: Node, a: seq<Node>)
    requires Sorted(b + [n] + a)
    ensures AtMost(b, n.key) && forall i :: 0 <= i < |a| ==> n.key <= a[i].key
  {
    var s := b + [n] + a;
    assert forall i :: 0 <= i < |b| ==> b[i] == s[i];
    assert s[|b|] == n;
    assert forall i :: 0 <= i < |a| ==> a[i] == s[|b| + 1 + i];
  }

  lemma InsertedSorted(s: seq<Node>, k: nat, n: Node)
    requires Sorted(s) && k <= |s|
    requires forall i :: 0 <= i < k ==> s[i].key <= n.key
    requires forall i :: k <= i < |s| ==> n.key <= s[i].key
    ensures Sorted(Inserted(s, k, n))
  {
  }

  ghost function Keys(s: seq<Node>): seq<int>
  {
    seq(|s|, i requires 0 <= i < |s| => s[i].key)
  }

  /** Wherever a node is inserted, if the list is sorted afterwards its keys read the same:
      hinted and unhinted insertion give the same key sequence. */
  lemma {:induction false} SameKeys(s: seq<Node>, j: nat, k: nat, n: Node, m: Node)
    requires j <= k <= |s| && n.key == m.key
    requires Sorted(Inserted(s, j, n)) && Sorted(Inserted(s, k, m))
    ensures Keys(Inserted(s, j, n)) == Keys(Inserted(s, k, m))
  {
    var a, b := Inserted(s, j, n), Inserted(s, k, m);
    forall i | j <= i < k
      ensures s[i].key == n.key
    {
      assert a[j] == n && a[i + 1] == s[i];
      assert b[k] == m && b[i] == s[i];
    }
    forall i | 0 <= i < |a|
      ensures a[i].key == b[i].key
    {
    }
  }
}
