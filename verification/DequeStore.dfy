// The segmented storage of dbase/stl/deque.h: iterators over buffers of one size, and the map of buffers.

module DequeStore {
  import opened NumberTheory

  /** A position: the index of its buffer in the map, and the place in the buffer. */
  datatype Iter = Iter(node: int, off: int)

  /** How many places lie between the start of buffer `lo` and the position. */
  function Idx(size: nat, lo: int, it: Iter): int {
    size * (it.node - lo) + it.off
  }

  predicate InBuffer(size: nat, it: Iter) {
    0 <= it.off < size
  }

  lemma IdxNode(size: nat, lo: int, it: Iter, d: int)
    ensures Idx(size, lo, it.(node := it.node + d)) == Idx(size, lo, it) + size * d
  {
    assert size * (it.node + d - lo) == size * (it.node - lo) + size * d;
  }

  /** Different positions have different indexes. */
  lemma IdxUnique(size: nat, lo: int, a: Iter, b: Iter)
    requires InBuffer(size, a) && InBuffer(size, b)
    ensures Idx(size, lo, a) == Idx(size, lo, b) <==> a == b
    ensures a.node < b.node ==> Idx(size, lo, a) < Idx(size, lo, b)
    ensures Idx(size, lo, a) < Idx(size, lo, b) ==> a.node <= b.node
  {
    var d := b.node - a.node;
    IdxNode(size, lo, a, d);
    AtLeastOneFactor(size, d);
  }

  /** operator++. */
  function Next(size: nat, it: Iter): Iter {
    if it.off + 1 == size then Iter(it.node + 1, 0) else Iter(it.node, it.off + 1)
  }

  /** operator--. */
  function Prev(size: nat, it: Iter): Iter {
    if it.off == 0 then Iter(it.node - 1, size - 1) else Iter(it.node, it.off - 1)
  }

  lemma Steps(size: nat, lo: int, it: Iter)
    requires InBuffer(size, it)
    ensures InBuffer(size, Next(size, it)) && Idx(size, lo, Next(size, it)) == Idx(size, lo, it) + 1
    ensures InBuffer(size, Prev(size, it)) && Idx(size, lo, Prev(size, it)) == Idx(size, lo, it) - 1
  {
    IdxNode(size, lo, it, 1);
    IdxNode(size, lo, it, -1);
  }

  /** operator- of two iterators. */
  function Minus(size: nat, a: Iter, b: Iter): int {
    size * (a.node - b.node) + a.off - b.off
  }

  lemma MinusIdx(size: nat, lo: int, a: Iter, b: Iter)
    ensures Minus(size, a, b) == Idx(size, lo, a) - Idx(size, lo, b)
  {
    IdxNode(size, lo, b, a.node - b.node);
  }

  /** operator+= with its truncating divisions. */
  function Plus(size: nat, it: Iter, n: int): Iter
    requires InBuffer(size, it)
  {
    var offset := n + it.off;
    if 0 <= offset < size then it.(off := it.off + n)
    else
      var nodeOffset := if offset > 0 then offset / size else -((-offset - 1) / size) - 1;
      Iter(it.node + nodeOffset, offset - nodeOffset * size)
  }

  /** It lands on the right place for offsets of either sign. */
  lemma PlusIdx(size: nat, lo: int, it: Iter, n: int)
    requires InBuffer(size, it)
    ensures InBuffer(size, Plus(size, it, n)) && Idx(size, lo, Plus(size, it, n)) == Idx(size, lo, it) + n
  {
    var offset := n + it.off;
    if !(0 <= offset < size) {
      var d := if offset > 0 then offset / size else -((-offset - 1) / size) - 1;
      Jump(size, offset, d);
      IdxNode(size, lo, it, d);
    }
  }

  lemma Jump(size: nat, offset: int, d: int)
    requires size > 0 && (offset < 0 || offset >= size)
    requires d == if offset > 0 then offset / size else -((-offset - 1) / size) - 1
    ensures 0 <= offset - d * size < size
  {
    if offset > 0 {
      DivMod(offset, size);
    } else {
      DivMod(-offset - 1, size);
    }
  }

  /** Going forth and back ends where it began, across any number of buffers. */
  lemma PlusInverse(size: nat, it: Iter, n: int)
    requires InBuffer(size, it)
    ensures Plus(size, Plus(size, it, n), -n) == it && Minus(size, Plus(size, it, n), it) == n
  {
    var r := Plus(size, it, n);
    PlusIdx(size, 0, it, n);
    PlusIdx(size, 0, r, -n);
    hide Plus, Idx;
    IdxUnique(size, 0, Plus(size, r, -n), it);
    MinusIdx(size, 0, r, it);
  }

  /** The buffers one behind the other. */
  function Flatten(rows: seq<seq<int>>): seq<int> {
    if rows == [] then [] else Flatten(rows[..|rows| - 1]) + rows[|rows| - 1]
  }

  predicate Rows(size: nat, rows: seq<seq<int>>) {
    forall r :: 0 <= r < |rows| ==> |rows[r]| == size
  }

  lemma {:induction false} FlatLength(size: nat, rows: seq<seq<int>>)
    requires Rows(size, rows)
    ensures |Flatten(rows)| == size * |rows|
  {
    if rows != [] {
      FlatLength(size, rows[..|rows| - 1]);
      assert size * |rows| == size * (|rows| - 1) + size;
    }
  }

  lemma FrontOf<T>(front: seq<T>, rows: seq<T>)
    requires rows != []
    ensures var all, z := front + rows, |rows| - 1;
            |all| - 1 == |front| + z && all[..|front| + z] == front + rows[..z] && all[|front| + z] == rows[z]
  {
  }

  lemma {:induction false} FlatConcat(front: seq<seq<int>>, rows: seq<seq<int>>)
    ensures Flatten(front + rows) == Flatten(front) + Flatten(rows)
  {
    if rows == [] {
      assert front + rows == front;
    } else {
      var z := |rows| - 1;
      FlatConcat(front, rows[..z]);
      FrontOf(front, rows);
    }
  }

  lemma {:induction false} FlatAt(size: nat, rows: seq<seq<int>>, r: nat, o: nat)
    requires Rows(size, rows) && r < |rows| && o < size
    ensures 0 <= size * r + o < |Flatten(rows)| && Flatten(rows)[size * r + o] == rows[r][o]
  {
    var front, back := rows[..r], rows[r + 1..];
    assert rows == front + ([rows[r]] + back);
    FlatConcat(front, [rows[r]] + back);
    FlatConcat([rows[r]], back);
    assert Flatten([rows[r]]) == rows[r];
    FlatLength(size, front);
  }

  lemma FlatUpdate(size: nat, rows: seq<seq<int>>, r: nat, o: nat, v: int)
    requires Rows(size, rows) && r < |rows| && o < size
    ensures 0 <= size * r + o < |Flatten(rows)|
    ensures Flatten(rows[r := rows[r][o := v]]) == Flatten(rows)[size * r + o := v]
  {
    FlatAt(size, rows, r, o);
    FlatLength(size, rows[..r]);
    hide Flatten;
    SplitFlat(rows, r, rows[r]);
    SplitFlat(rows, r, rows[r][o := v]);
    assert rows[r := rows[r]] == rows;
    UpdateInside(Flatten(rows[..r]), rows[r], Flatten(rows[r + 1..]), o, v);
  }

  lemma SplitFlat(rows: seq<seq<int>>, r: nat, row: seq<int>)
    requires r < |rows|
    ensures Flatten(rows[r := row]) == Flatten(rows[..r]) + (row + Flatten(rows[r + 1..]))
  {
    assert rows[r := row] == rows[..r] + ([row] + rows[r + 1..]);
    assert Flatten([row]) == row;
    hide Flatten;
    FlatConcat(rows[..r], [row] + rows[r + 1..]);
    FlatConcat([row], rows[r + 1..]);
  }

  lemma UpdateInside(a: seq<int>, b: seq<int>, c: seq<int>, o: nat, v: int)
    requires o < |b|
    ensures a + (b[o := v] + c) == (a + (b + c))[|a| + o := v]
  {
  }

  /** Nodes lo..hi of the map have a buffer each, holding these rows. */
  ghost predicate Laid(size: nat, buffers: seq<array?<int>>, lo: int, hi: int, rows: seq<seq<int>>)
    reads set k | 0 <= k < |buffers| && buffers[k] != null :: buffers[k]
  {
    && size > 0 && 0 <= lo <= hi < |buffers| && |rows| == hi + 1 - lo
    && (forall k :: lo <= k <= hi ==> buffers[k] != null && buffers[k].Length == size && buffers[k][..] == rows[k - lo])
    && (forall k, l :: lo <= k < l <= hi ==> buffers[k] != buffers[l])
  }
}
