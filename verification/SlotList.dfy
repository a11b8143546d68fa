// The intrusive list of timers of dbase/time/timer_wheel.h, with its two guards head and tail.

module SlotList {
  class Link {
    var next: Link?
    var prev: Link?
    var owner: DoubleLink?

    constructor ()
      ensures IsDetached()
    {
      next, prev, owner := null, null, null;
    }

    predicate IsDetached()
      reads this
    {
      owner == null && next == null && prev == null
    }

    predicate IsLinked()
      reads this
    {
      owner != null && next != null && prev != null
    }
  }

  /** Neighbours point at each other. */
  ghost predicate Chain(p: seq<Link>)
    reads set i | 0 <= i < |p| - 1 :: p[i]`next, set i | 1 <= i < |p| :: p[i]`prev
  {
    forall i :: 0 <= i < |p| - 1 ==> p[i].next == p[i + 1] && p[i + 1].prev == p[i]
  }

  ghost predicate NoRepeats(p: seq<Link>) {
    forall i, j :: 0 <= i < j < |p| ==> p[i] != p[j]
  }

  /** All but the guards belong to the list. */
  ghost predicate Owned(p: seq<Link>, list: DoubleLink)
    reads set i | 0 <= i < |p| :: p[i]`owner
  {
    forall i :: 0 <= i < |p| ==> (p[i].owner == list <==> 0 < i < |p| - 1)
  }

  lemma ChainConcat(p: seq<Link>, q: seq<Link>)
    requires p != [] && q != []
    ensures Chain(p + q) <==> Chain(p) && Chain(q) && p[|p| - 1].next == q[0] && q[0].prev == p[|p| - 1]
  {
    var r := p + q;
    if Chain(r) {
      assert r[|p| - 1].next == r[|p|];
      assert forall i :: 0 <= i < |p| ==> p[i] == r[i];
      assert forall i :: 0 <= i < |q| ==> q[i] == r[|p| + i];
    }
  }

  /** A row with one node more or less. */
  lemma RowPlus(h: Link, s: seq<Link>, i: nat, n: Link, t: Link)
    requires i <= |s|
    ensures var r := [h] + s + [t];
            |r| == |s| + 2 && r[..i + 1] + [n] + r[i + 1..] == [h] + (s[..i] + [n] + s[i..]) + [t]
    ensures s[..|s|] + [n] + s[|s|..] == s + [n] && s[..0] + [n] + s[0..] == [n] + s
  {
  }

  lemma RowMinus(h: Link, s: seq<Link>, i: nat, t: Link)
    requires i < |s|
    ensures var r := [h] + s + [t]; r[..i + 1] + r[i + 2..] == [h] + (s[..i] + s[i + 1..]) + [t]
  {
  }

  lemma NoRepeatsWithout(p: seq<Link>, i: nat)
    requires NoRepeats(p) && 0 < i < |p| - 1
    ensures NoRepeats(p[..i] + p[i + 1..])
    ensures forall j :: 0 <= j < |p| && j != i ==> p[j] != p[i]
  {
  }

  lemma NoRepeatsWith(p: seq<Link>, i: nat, n: Link)
    requires NoRepeats(p) && 0 < i < |p| && n !in p
    ensures NoRepeats(p[..i] + [n] + p[i..])
  {
  }

  class DoubleLink {
    const head: Link
    const tail: Link
    var count: nat
    ghost var nodes: seq<Link>   // front to back

    /** The guards and the nodes in one row. */
    ghost function Row(): seq<Link>
      reads this
    {
      [head] + nodes + [tail]
    }

    ghost predicate Valid()
      reads this, Row()
    {
      && count == |nodes| && NoRepeats(Row()) && Chain(Row())
      && Owned(Row(), this)
    }

    constructor ()
      ensures Valid() && nodes == [] && fresh(Row())
    {
      head := new Link();
      tail := new Link();
      count, nodes := 0, [];
      new;
      head.next := tail;
      tail.prev := head;
    }

    predicate Empty()
      reads this, head
    {
      head.next == tail
    }

    lemma EmptyMeans()
      requires Valid()
      ensures Empty() <==> nodes == []
      ensures nodes != [] ==> head.next == nodes[0]
    {
      assert Row()[0] == head && Row()[|nodes| + 1] == tail;
      assert nodes != [] ==> Row()[1] == nodes[0];
    }

    lemma DetachedIsElsewhere(n: Link)
      requires Valid() && n.IsDetached() && n != head && n != tail
      ensures n !in Row()
    {
      assert forall i :: 0 < i <= |nodes| ==> Row()[i].owner == this;
    }

    lemma Ends()
      requires Valid()
      ensures Row()[0] == head && Row()[|nodes| + 1] == tail && |Row()| == |nodes| + 2
      ensures tail.prev == Row()[|nodes|] && head.next == Row()[1]
    {
    }

    /** Links a node that is in no place of the row between two of its places. */
    method LinkBetween(before: Link?, node: Link, after: Link?, ghost i: nat)
      requires Valid() && i <= |nodes| && node !in Row()
      requires i + 1 < |Row()| && before == Row()[i] && after == Row()[i + 1]
      modifies this, Row(), node
      ensures Valid() && nodes == old(nodes)[..i] + [node] + old(nodes)[i..]
    {
      hide NoRepeats, Chain, Owned;
      ghost var row := Row();
      RowPlus(head, nodes, i, node, tail);
      Insert(before, node, after, row, i + 1);
      Own(node, this, row, i + 1);
      count := count + 1;
      nodes := nodes[..i] + [node] + nodes[i..];
    }

    /** Appends a detached node; one that is linked anywhere is left alone. */
    method Push(node: Link?)
      requires Valid() && node != head && node != tail
      modifies this, Row(), node
      ensures Valid()
      ensures nodes == if node != null && old(node.IsDetached()) then old(nodes) + [node] else old(nodes)
      ensures node != null && !old(node.IsDetached()) ==> node.owner == old(node.owner)
    {
      if node == null || !node.IsDetached() {
        return;
      }
      DetachedIsElsewhere(node);
      Ends();
      hide NoRepeats, Chain, Owned;
      LinkBetween(tail.prev, node, tail, |nodes|);
    }

    method PushFront(node: Link?)
      requires Valid() && node != head && node != tail
      modifies this, Row(), node
      ensures Valid()
      ensures nodes == if node != null && old(node.IsDetached()) then [node] + old(nodes) else old(nodes)
      ensures node != null && !old(node.IsDetached()) ==> node.owner == old(node.owner)
    {
      if node == null || !node.IsDetached() {
        return;
      }
      DetachedIsElsewhere(node);
      Ends();
      hide NoRepeats, Chain, Owned;
      LinkBetween(head, node, head.next, 0);
    }

    lemma LinkedAt(i: nat)
      requires Valid() && i < |nodes|
      ensures nodes[i].IsLinked() && nodes[i].owner == this
      ensures nodes[i] == Row()[i + 1] && nodes[i].prev == Row()[i] && nodes[i].next == Row()[i + 2]
    {
      var row := Row();
      assert row[i + 1] == nodes[i] && row[i].next == row[i + 1] && row[i + 1].next == row[i + 2];
    }

    /** Unlinks and returns the first node. */
    method Pop() returns (node: Link?)
      requires Valid()
      modifies this, Row()
      ensures Valid()
      ensures old(nodes) == [] ==> node == null && nodes == []
      ensures old(nodes) != [] ==> node == old(nodes)[0] && nodes == old(nodes)[1..] && node.IsDetached()
    {
      EmptyMeans();
      if Empty() {
        return null;
      }
      node := head.next;
      LinkedAt(0);
      Remove(node, this, 0);
      assert nodes == old(nodes)[1..];
    }
  }

  /** Unlinks a linked node from the list that owns it, wherever it is in it. */
  method Remove(node: Link?, ghost list: DoubleLink, ghost i: nat)
    requires node != null && node.IsLinked() ==> list.Valid() && i < |list.nodes| && list.nodes[i] == node
    modifies if node != null && node.IsLinked() then {list} else {}
    modifies if node != null && node.IsLinked() then list.Row() else []
    ensures node != null && old(node.IsLinked()) ==>
              list.Valid() && list.nodes == old(list.nodes)[..i] + old(list.nodes)[i + 1..] && node.IsDetached()
  {
    if node == null || !node.IsLinked() {
      return;
    }
    list.LinkedAt(i);
    TakeOut(node, list, i);
  }

  /** The body of Remove for a linked node. */
  method TakeOut(node: Link, ghost list: DoubleLink, ghost i: nat)
    requires list.Valid() && i < |list.nodes| && list.nodes[i] == node
    modifies list, list.Row()
    ensures list.Valid() && list.nodes == old(list.nodes)[..i] + old(list.nodes)[i + 1..] && node.IsDetached()
  {
    hide NoRepeats, Chain, Owned;
    ghost var row := list.Row();
    list.LinkedAt(i);
    RowMinus(list.head, list.nodes, i, list.tail);
    OwnedWithout(row, i + 1, list);
    CutOut(node, row, i + 1);
    node.owner.count := node.owner.count - 1;
    list.nodes := list.nodes[..i] + list.nodes[i + 1..];
    Detach(node, list.Row(), list);
  }

  lemma OwnedWithout(p: seq<Link>, i: nat, list: DoubleLink)
    requires Owned(p, list) && 0 < i < |p| - 1
    ensures Owned(p[..i] + p[i + 1..], list)
  {
  }

  /** Clearing the links of a node that is in no row any more. */
  method Detach(node: Link, ghost row: seq<Link>, ghost list: DoubleLink)
    requires node !in row && Chain(row) && Owned(row, list)
    modifies node
    ensures node.IsDetached() && Chain(row) && Owned(row, list)
  {
    node.owner := null;
    node.next := null;
    node.prev := null;
  }

  /** The list takes possession of a node that has been linked in. */
  method Own(node: Link, list: DoubleLink, ghost row: seq<Link>, ghost i: nat)
    requires 0 < i < |row| && node !in row && Owned(row, list) && Chain(row[..i] + [node] + row[i..])
    modifies node`owner
    ensures node.owner == list && Owned(row[..i] + [node] + row[i..], list) && Chain(row[..i] + [node] + row[i..])
  {
    node.owner := list;
  }

  /** Links `node` in between two neighbours. */
  method Insert(before: Link?, node: Link, after: Link?, ghost row: seq<Link>, ghost i: nat)
    requires 0 < i < |row| && before == row[i - 1] && after == row[i] && node !in row
    requires NoRepeats(row) && Chain(row)
    modifies {node}`next, {node}`prev, {row[i - 1]}`next, {row[i]}`prev
    ensures Chain(row[..i] + [node] + row[i..]) && NoRepeats(row[..i] + [node] + row[i..])
  {
    NoRepeatsWith(row, i, node);
    before.next := node;
    node.prev := before;
    node.next := after;
    after.prev := node;
    assert Chain(row[..i]) && Chain(row[i..]) && Chain([node]);
    hide NoRepeats;
    ChainConcat(row[..i], [node]);
    ChainConcat(row[..i] + [node], row[i..]);
  }

  /** Makes the neighbours of row[i] point at each other. */
  method CutOut(node: Link, ghost row: seq<Link>, ghost i: nat)
    requires 0 < i < |row| - 1 && node == row[i] && NoRepeats(row) && Chain(row)
    modifies {row[i - 1]}`next, {row[i + 1]}`prev
    ensures Chain(row[..i] + row[i + 1..]) && NoRepeats(row[..i] + row[i + 1..])
    ensures node !in row[..i] + row[i + 1..]
  {
    NoRepeatsWithout(row, i);
    var before: Link?, after: Link? := node.prev, node.next;
    before.next := after;
    after.prev := before;
    assert Chain(row[..i]) && Chain(row[i + 1..]);
    hide NoRepeats;
    ChainConcat(row[..i], row[i + 1..]);
  }
}
