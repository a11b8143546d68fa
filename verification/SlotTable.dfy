// The slot lists of a TimerMgr on their pointers: what TimerWheel says of lists of timer identities is what
// DoubleLink does to the nodes, and no operation on one list disturbs another.

module SlotTable {
  import opened WheelArithmetic
  import opened FlatTimers
  import opened TimerWheel
  import opened SlotList

  /** The two lists have no node and no guard in common. */
  ghost predicate Separate(a: DoubleLink, b: DoubleLink)
    reads a, b
  {
    a != b && forall n :: n in a.Row() ==> n !in b.Row()
  }

  ghost predicate Guards(b: DoubleLink, n: Link)
  {
    n == b.head || n == b.tail
  }

  twostate lemma StaysValid(b: DoubleLink)
    requires old(b.Valid()) && unchanged(b) && forall n :: n in old(b.Row()) ==> unchanged(n)
    ensures b.Valid()
  {
    var r := b.Row();
    assert r == old(b.Row());
    forall i | 0 <= i < |r|
      ensures unchanged(r[i])
    {
      assert r[i] in old(b.Row());
    }
  }

  /** Push on one of several lists: the node gets behind its last one, and every other list is as before. */
  method PushOn(list: DoubleLink, node: Link, ghost others: set<DoubleLink>)
    requires list.Valid() && node.IsDetached() && !Guards(list, node)
    requires forall b :: b in others ==> b.Valid() && Separate(list, b) && !Guards(b, node)
    modifies list, list.Row(), node
    ensures list.Valid() && list.nodes == old(list.nodes) + [node]
    ensures forall b :: b in others ==> b.Valid() && Separate(list, b) && b.nodes == old(b.nodes)
  {
    ghost var row := list.Row();
    forall b | b in others
      ensures node !in b.Row()
    {
      b.DetachedIsElsewhere(node);
    }
    list.Push(node);
    assert forall n :: n in list.Row() ==> n in row || n == node;
    forall b | b in others
      ensures b.Valid() && Separate(list, b) && b.nodes == old(b.nodes)
    {
      forall n | n in old(b.Row())
        ensures unchanged(n)
      {
        assert n !in row && n as object != list as object && n != node;
      }
      StaysValid(b);
    }
  }

  /** Remove, from one of several lists. */
  method RemoveFrom(ghost list: DoubleLink, node: Link, ghost i: nat, ghost others: set<DoubleLink>)
    requires list.Valid() && i < |list.nodes| && list.nodes[i] == node
    requires forall b :: b in others ==> b.Valid() && Separate(list, b)
    modifies list, list.Row()
    ensures list.Valid() && list.nodes == old(list.nodes)[..i] + old(list.nodes)[i + 1..] && node.IsDetached()
    ensures forall b :: b in others ==> b.Valid() && Separate(list, b) && b.nodes == old(b.nodes)
  {
    ghost var row := list.Row();
    list.LinkedAt(i);
    Remove(node, list, i);
    assert forall n :: n in list.Row() ==> n in row;
    forall b | b in others
      ensures b.Valid() && Separate(list, b) && b.nodes == old(b.nodes)
    {
      forall n | n in old(b.Row())
        ensures unchanged(n)
      {
        assert n !in row && n as object != list as object;
      }
      StaysValid(b);
    }
  }

  // A whole table of lists.

  ghost function Others(lists: map<Slot, DoubleLink>, s: Slot): set<DoubleLink>
  {
    set t | t in lists && t != s :: lists[t]
  }

  ghost predicate Injective(lists: map<Slot, DoubleLink>)
  {
    forall s, t :: s in lists && t in lists && s != t ==> lists[s] != lists[t]
  }

  ghost predicate Disjoint(rows: map<Slot, seq<Link>>)
  {
    forall s, t, n :: s in rows && t in rows && s != t && n in rows[s] ==> n !in rows[t]
  }

  /** The nodes of every list with its guards, front to back. */
  ghost function RowsOf(lists: map<Slot, DoubleLink>): map<Slot, seq<Link>>
    reads set s | s in lists :: lists[s]
  {
    map s | s in lists :: lists[s].Row()
  }

  ghost function NodesOf(lists: map<Slot, DoubleLink>): map<Slot, seq<Link>>
    reads set s | s in lists :: lists[s]
  {
    map s | s in lists :: lists[s].nodes
  }

  lemma OthersReady(lists: map<Slot, DoubleLink>, s: Slot)
    requires s in lists && Injective(lists) && Disjoint(RowsOf(lists))
    ensures forall b :: b in Others(lists, s) ==> Separate(lists[s], b)
  {
    var rows := RowsOf(lists);
    forall t, n | t in lists && t != s && n in rows[s]
      ensures n !in lists[t].Row()
    {
      assert n !in rows[t];
    }
  }

  /** The table after one list has changed; `rows` and `nodes` are what it was before. */
  lemma OneChanged(lists: map<Slot, DoubleLink>, s: Slot, rows: map<Slot, seq<Link>>, nodes: map<Slot, seq<Link>>)
    requires s in lists && rows.Keys == nodes.Keys == lists.Keys && Disjoint(rows)
    requires forall t :: t in lists ==> rows[t] == [lists[t].head] + nodes[t] + [lists[t].tail]
    requires forall b :: b in Others(lists, s) ==> Separate(lists[s], b)
    requires forall t :: t in lists && t != s ==> lists[t].nodes == nodes[t]
    ensures Disjoint(RowsOf(lists)) && NodesOf(lists) == nodes[s := lists[s].nodes]
  {
    var rows' := RowsOf(lists);
    forall t, u, n | t in rows' && u in rows' && t != u && n in rows'[t]
      ensures n !in rows'[u]
    {
      if t != s && u != s {
        assert rows'[t] == rows[t] && rows'[u] == rows[u];
      } else {
        var v := if t == s then u else t;
        assert lists[v] in Others(lists, s);
      }
    }
  }

  method PushIn(ghost lists: map<Slot, DoubleLink>, ghost s: Slot, list: DoubleLink, node: Link)
    requires s in lists && list == lists[s] && Injective(lists) && Disjoint(RowsOf(lists)) && node.IsDetached()
    requires list.Valid() && !Guards(list, node)
    requires forall b :: b in Others(lists, s) ==> b.Valid() && !Guards(b, node)
    modifies list, list.Row(), node
    ensures Disjoint(RowsOf(lists)) && list.Valid() && forall b :: b in Others(lists, s) ==> b.Valid()
    ensures NodesOf(lists) == old(NodesOf(lists)[s := lists[s].nodes + [node]])
  {
    ghost var others, rows, nodes := Others(lists, s), RowsOf(lists), NodesOf(lists);
    OthersReady(lists, s);
    PushOn(list, node, others);
    OneChanged(lists, s, rows, nodes);
  }

  method RemoveIn(ghost lists: map<Slot, DoubleLink>, ghost s: Slot, ghost i: nat, ghost list: DoubleLink, node: Link)
    requires s in lists && list == lists[s] && Injective(lists) && Disjoint(RowsOf(lists))
    requires list.Valid() && i < |list.nodes| && list.nodes[i] == node
    requires forall b :: b in Others(lists, s) ==> b.Valid()
    modifies list, list.Row()
    ensures Disjoint(RowsOf(lists)) && node.IsDetached() && list.Valid()
    ensures forall b :: b in Others(lists, s) ==> b.Valid()
    ensures NodesOf(lists) == old(NodesOf(lists)[s := lists[s].nodes[..i] + lists[s].nodes[i + 1..]])
  {
    ghost var others, rows, nodes := Others(lists, s), RowsOf(lists), NodesOf(lists);
    OthersReady(lists, s);
    RemoveFrom(list, node, i, others);
    OneChanged(lists, s, rows, nodes);
  }

  /** `tlist` names the nodes of each list in order. */
  ghost predicate Names(nodes: map<Slot, seq<Link>>, id: Link -> TimerId, tlist: map<Slot, seq<TimerId>>)
  {
    && nodes.Keys == tlist.Keys
    && (forall s :: s in tlist ==> |tlist[s]| == |nodes[s]|)
    && forall s, i :: s in tlist && 0 <= i < |tlist[s]| ==> tlist[s][i] == id(nodes[s][i])
  }

  /** What TimerMgr's Link does to the lists of timers is what Push does to the nodes. */
  lemma NamesWith(nodes: map<Slot, seq<Link>>, id: Link -> TimerId, tlist: map<Slot, seq<TimerId>>,
          owner: map<TimerId, Slot>, s: Slot, node: Link)
    requires Names(nodes, id, tlist) && LinkedIn(tlist, owner) && s in nodes && id(node) !in owner
    ensures Names(nodes[s := nodes[s] + [node]], id, tlist[s := With(tlist[s], id(node))])
    ensures LinkedIn(tlist[s := With(tlist[s], id(node))], owner[id(node) := s])
  {
    hide Distinct, ValidSlot, LinkedIn;
    assert ValidSlot(s) && Distinct(tlist[s]) && id(node) !in tlist[s] by { NotListed(tlist, owner, s, id(node)); }
    LinkedWith(tlist, owner, id(node), s);
  }

  lemma NotListed(tlist: map<Slot, seq<TimerId>>, owner: map<TimerId, Slot>, s: Slot, x: TimerId)
    requires LinkedIn(tlist, owner) && s in tlist
    ensures ValidSlot(s) && Distinct(tlist[s]) && (x !in owner ==> x !in tlist[s])
    ensures x in tlist[s] ==> x in owner && owner[x] == s
  {
  }

  /** What its Unlink does is what Remove does. */
  lemma NamesWithout(nodes: map<Slot, seq<Link>>, id: Link -> TimerId, tlist: map<Slot, seq<TimerId>>,
          owner: map<TimerId, Slot>, s: Slot, i: nat)
    requires Names(nodes, id, tlist) && LinkedIn(tlist, owner) && s in nodes && i < |nodes[s]|
    ensures var x := id(nodes[s][i]);
      && x in owner && owner[x] == s && x in tlist[s] && Distinct(tlist[s])
      && Names(nodes[s := nodes[s][..i] + nodes[s][i + 1..]], id, tlist[s := Without(tlist[s], x)])
      && LinkedIn(tlist[s := Without(tlist[s], x)], owner - {x})
  {
    var x := id(nodes[s][i]);
    assert tlist[s][i] == x;
    hide ValidSlot, LinkedIn;
    NotListed(tlist, owner, s, x);
    WithoutIs(tlist[s], i);
    hide Distinct;
    LinkedWithout(tlist, owner, x);
  }

  lemma WithoutIs(s: seq<TimerId>, i: nat)
    requires Distinct(s) && i < |s|
    ensures Without(s, s[i]) == s[..i] + s[i + 1..]
  {
  }
}
