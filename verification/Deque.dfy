// dbase::stl::deque: a double-ended queue over fixed-size buffers.

module Deques {
  import opened NumberTheory
  import opened DequeStore
  import opened Copies

  const MAP_INIT_SIZE: nat := 8

  /** The rows between nodes lo and hi, the range [begin, end) in them; `end` itself is a place too. */
  ghost predicate Placed(size: nat, lo: int, hi: int, rows: seq<seq<int>>, begin: Iter, end: Iter) {
    && size > 0 && |rows| == hi + 1 - lo && Rows(size, rows)
    && lo <= begin.node <= end.node <= hi && InBuffer(size, begin) && InBuffer(size, end)
    && 0 <= Idx(size, lo, begin) <= Idx(size, lo, end) < |Flatten(rows)|
  }

  class Deque {
    const size: nat
    var table: array<array?<int>>   // the map of buffers
    var begin: Iter
    var end: Iter
    ghost var lo: int               // nodes lo..hi are known to have buffers
    ghost var hi: int
    ghost var rows: seq<seq<int>>   // what these buffers hold

    ghost function Buffers(): set<array<int>>
      reads this`table, table
    {
      set k | 0 <= k < table.Length && table[k] != null :: table[k]
    }

    ghost predicate Valid()
      reads this, table, Buffers()
    {
      Laid(size, table[..], lo, hi, rows) && Placed(size, lo, hi, rows, begin, end)
    }

    /** The elements, front to back: the abstraction function. */
    ghost function Contents(): seq<int>
      requires Placed(size, lo, hi, rows, begin, end)
      reads this
    {
      Flatten(rows)[Idx(size, lo, begin)..Idx(size, lo, end)]
    }

    /** deque(): an empty map with one buffer in the middle. */
    constructor (size: nat)
      requires size > 0
      ensures Valid() && Contents() == [] && this.size == size
    {
      this.size := size;
      var buffer := new int[size];
      table := new array?<int>[MAP_INIT_SIZE](_ => null);
      begin, end := Iter((MAP_INIT_SIZE - 1) / 2, 0), Iter((MAP_INIT_SIZE - 1) / 2, 0);
      lo, hi := (MAP_INIT_SIZE - 1) / 2, (MAP_INIT_SIZE - 1) / 2;
      rows := [buffer[..]];
      new;
      table[begin.node] := buffer;
      FlatLength(size, rows);
    }

    /** operator* of an iterator. */
    method Get(it: Iter) returns (v: int)
      requires Laid(size, table[..], lo, hi, rows) && lo <= it.node <= hi && InBuffer(size, it)
      ensures 0 <= Idx(size, lo, it) < |Flatten(rows)| && v == Flatten(rows)[Idx(size, lo, it)]
    {
      RowsLaid(size, table[..], lo, hi, rows);
      FlatAt(size, rows, it.node - lo, it.off);
      RowAt(size, table[..], lo, hi, rows, it.node);
      var buffer := table[it.node];
      v := buffer[it.off];
      assert buffer[..][it.off] == v;
    }

    method Put(it: Iter, v: int)
      requires Laid(size, table[..], lo, hi, rows) && lo <= it.node <= hi && InBuffer(size, it)
      modifies this`rows, Buffers()
      ensures Laid(size, table[..], lo, hi, rows)
      ensures 0 <= Idx(size, lo, it) < |old(Flatten(rows))|
                && Flatten(rows) == old(Flatten(rows))[Idx(size, lo, it) := v]
      ensures Rows(size, rows) && |rows| == |old(rows)|
    {
      RowsLaid(size, table[..], lo, hi, rows);
      FlatUpdate(size, rows, it.node - lo, it.off, v);
      RowAt(size, table[..], lo, hi, rows, it.node);
      ghost var rows0, r := rows, it.node - lo;
      var buffer := table[it.node];
      buffer[it.off] := v;
      rows := rows0[r := rows0[r][it.off := v]];
      assert buffer[..] == rows[r];
    }

    /** create_buffer in front of the first used buffer. */
    method GrowFront(need: nat)
      requires Valid() && 1 <= need <= begin.node
      modifies table, this`lo, this`hi, this`rows
      ensures Valid() && Contents() == old(Contents())
      ensures Idx(size, lo, begin) == size * need + begin.off
      ensures forall b :: b in Buffers() ==> b in old(Buffers()) || fresh(b)
    {
      hide Laid, Flatten, Rows, Idx;
      ghost var core := Core(lo, rows, begin, end);
      OldContents(size, lo, hi, rows, begin, end);
      LaidCore(size, table[..], lo, hi, rows, begin, end);
      ghost var pre := BuffersBefore(table, size, begin.node - need, begin.node - 1, end.node, core);
      lo, hi, rows := begin.node - need, end.node, pre + core;
      NoRows(size);
      CoreContents(size, lo, pre, core, [], begin, end);
      assert pre + core + [] == rows;
    }

    /** create_buffer behind the last used buffer. */
    method GrowBack(need: nat)
      requires Valid() && 1 <= need && end.node + need < table.Length
      modifies table, this`lo, this`hi, this`rows
      ensures Valid() && Contents() == old(Contents())
      ensures |Flatten(rows)| - Idx(size, lo, end) == size * need + size - end.off
      ensures forall b :: b in Buffers() ==> b in old(Buffers()) || fresh(b)
    {
      hide Laid, Flatten, Rows, Idx;
      ghost var core := Core(lo, rows, begin, end);
      OldContents(size, lo, hi, rows, begin, end);
      LaidCore(size, table[..], lo, hi, rows, begin, end);
      ghost var post := BuffersBehind(table, size, begin.node, end.node, end.node + need, core);
      lo, hi, rows := begin.node, end.node + need, core + post;
      NoRows(size);
      CoreContents(size, lo, [], core, post, begin, end);
      assert [] + core + post == rows;
      RoomBehind(size, lo, end, |rows|, need);
    }

    /** reallocate_map_at_front: a larger map, new buffers in front, the used ones behind them in the middle. */
    method ReallocateFront(need: nat)
      requires Valid() && 1 <= need
      modifies this`table, this`begin, this`end, this`lo, this`hi, this`rows
      ensures Valid() && Contents() == old(Contents()) && fresh(table)
      ensures Idx(size, lo, begin) == size * need + begin.off && begin.off == old(begin.off) && end.off == old(end.off)
      ensures forall b :: b in Buffers() ==> b in old(Buffers()) || fresh(b)
    {
      hide Laid, Flatten, Rows, Idx;
      LaidRange(size, table[..], lo, hi, rows);
      var oldBuffer := end.node - begin.node + 1;
      ghost var core := Core(lo, rows, begin, end);
      OldContents(size, lo, hi, rows, begin, end);
      LaidCore(size, table[..], lo, hi, rows, begin, end);
      var newMap, nstart;
      ghost var pre;
      newMap, nstart, pre := NewMapFront(table, size, begin.node, end.node, need, core);
      var mid := nstart + need;
      SameDistance(size, begin, end, mid);
      table := newMap;
      begin, end := Iter(mid, begin.off), Iter(mid + oldBuffer - 1, end.off);
      lo, hi, rows := nstart, end.node, pre + core;
      NoRows(size);
      CoreContents(size, lo, pre, core, [], begin, end);
      assert pre + core + [] == rows;
    }

    /** reallocate_map_at_back. */
    method ReallocateBack(need: nat)
      requires Valid() && 1 <= need
      modifies this`table, this`begin, this`end, this`lo, this`hi, this`rows
      ensures Valid() && Contents() == old(Contents()) && fresh(table)
      ensures |Flatten(rows)| - Idx(size, lo, end) == size * need + size - end.off && begin.off == old(begin.off)
                && end.off == old(end.off)
      ensures forall b :: b in Buffers() ==> b in old(Buffers()) || fresh(b)
    {
      hide Laid, Flatten, Rows, Idx;
      LaidRange(size, table[..], lo, hi, rows);
      var oldBuffer := end.node - begin.node + 1;
      ghost var core := Core(lo, rows, begin, end);
      OldContents(size, lo, hi, rows, begin, end);
      LaidCore(size, table[..], lo, hi, rows, begin, end);
      var newMap, nstart;
      ghost var post;
      newMap, nstart, post := NewMapBack(table, size, begin.node, end.node, need, core);
      SameDistance(size, begin, end, nstart);
      table := newMap;
      begin, end := Iter(nstart, begin.off), Iter(nstart + oldBuffer - 1, end.off);
      lo, hi, rows := nstart, end.node + need, core + post;
      NoRows(size);
      CoreContents(size, lo, [], core, post, begin, end);
      assert [] + core + post == rows;
      RoomBehind(size, lo, end, |rows|, need);
    }

    /** require_capacity: room for n more elements in front of the first one, or behind the last one. */
    method RequireCapacity(n: nat, front: bool)
      requires Valid()
      modifies table, this`table, this`begin, this`end, this`lo, this`hi, this`rows
      ensures Valid() && Contents() == old(Contents())
      ensures front ==> n <= Idx(size, lo, begin)
      ensures !front ==> Idx(size, lo, end) + n < |Flatten(rows)|
      ensures begin.off == old(begin.off) && end.off == old(end.off)
      ensures forall b :: b in Buffers() ==> b in old(Buffers()) || fresh(b)
      ensures table == old(table) || fresh(table)
    {
      hide Laid, Flatten, Rows, Idx;
      LaidRange(size, table[..], lo, hi, rows);
      RoomAt(size, lo, hi, rows, begin, end);
      if front && begin.off < n {
        var needBuffer := (n - begin.off) / size + 1;
        EnoughBuffers(size, n - begin.off);
        if needBuffer > begin.node {
          ReallocateFront(needBuffer);
          return;
        }
        GrowFront(needBuffer);
      } else if !front && size - end.off - 1 < n {
        var needBuffer := (n - (size - end.off - 1)) / size + 1;
        EnoughBuffers(size, n - (size - end.off - 1));
        if needBuffer > table.Length - end.node - 1 {
          ReallocateBack(needBuffer);
          return;
        }
        GrowBack(needBuffer);
      }
    }

    method PushBack(value: int)
      requires Valid()
      modifies this, table, Buffers()
      ensures Valid() && Contents() == old(Contents()) + [value]
      ensures forall b :: b in Buffers() ==> b in old(Buffers()) || fresh(b)
      ensures table == old(table) || fresh(table)
    {
      hide Laid, Flatten, Rows, Idx, Placed;
      ghost var c := Contents();
      PlacedRange(size, lo, hi, rows, begin, end);
      if end.off != size - 1 {
        RoomAt(size, lo, hi, rows, begin, end);
        PutAtEnd(value);
        Steps(size, lo, end);
        end := end.(off := end.off + 1);
      } else {
        RequireCapacity(1, false);
        PlacedRange(size, lo, hi, rows, begin, end);
        PutAtEnd(value);
        Steps(size, lo, end);
        end := Next(size, end);
      }
      MakePlaced(size, lo, hi, rows, begin, end);
      OneMore(Flatten(rows), Idx(size, lo, begin), Idx(size, lo, end) - 1, c, value);
    }

    /** Writes the place behind the last element. */
    method PutAtEnd(value: int)
      requires Valid()
      modifies this`rows, Buffers()
      ensures Laid(size, table[..], lo, hi, rows) && Rows(size, rows) && |rows| == |old(rows)|
      ensures 0 <= Idx(size, lo, begin) <= Idx(size, lo, end) < |Flatten(rows)| == |old(Flatten(rows))|
      ensures Flatten(rows)[Idx(size, lo, begin)..Idx(size, lo, end)] == old(Contents())
      ensures Flatten(rows)[Idx(size, lo, end)] == value
    {
      hide Laid, Flatten, Rows, Idx;
      UpdateOutside(Flatten(rows), Idx(size, lo, end), value, Idx(size, lo, begin), Idx(size, lo, end));
      Put(end, value);
    }

    method PushFront(value: int)
      requires Valid()
      modifies this, table, Buffers()
      ensures Valid() && Contents() == [value] + old(Contents())
      ensures forall b :: b in Buffers() ==> b in old(Buffers()) || fresh(b)
      ensures table == old(table) || fresh(table)
    {
      hide Laid, Flatten, Rows, Idx, Placed;
      ghost var c := Contents();
      PlacedRange(size, lo, hi, rows, begin, end);
      if begin.off != 0 {
        RoomAt(size, lo, hi, rows, begin, end);
        Steps(size, lo, begin);
        PutInFront(Iter(begin.node, begin.off - 1), value);
        begin := begin.(off := begin.off - 1);
      } else {
        RequireCapacity(1, true);
        PlacedRange(size, lo, hi, rows, begin, end);
        Steps(size, lo, begin);
        PutInFront(Prev(size, begin), value);
        begin := Prev(size, begin);
      }
      MakePlaced(size, lo, hi, rows, begin, end);
      OneMoreFront(Flatten(rows), Idx(size, lo, begin), Idx(size, lo, end), c, value);
    }

    /** Writes the place in front of the first element. */
    method PutInFront(it: Iter, value: int)
      requires Valid() && InBuffer(size, it) && Idx(size, lo, it) == Idx(size, lo, begin) - 1 >= 0
      modifies this`rows, Buffers()
      ensures Laid(size, table[..], lo, hi, rows) && Rows(size, rows) && |rows| == |old(rows)|
      ensures Idx(size, lo, begin) <= Idx(size, lo, end) < |Flatten(rows)| == |old(Flatten(rows))|
      ensures Flatten(rows)[Idx(size, lo, begin)..Idx(size, lo, end)] == old(Contents())
      ensures Flatten(rows)[Idx(size, lo, it)] == value
    {
      hide Laid, Flatten, Rows, Idx;
      NodeInRange(size, lo, hi, rows, it);
      UpdateOutside(Flatten(rows), Idx(size, lo, it), value, Idx(size, lo, begin), Idx(size, lo, end));
      Put(it, value);
    }

    /** pop_front; the caller must not call it on an empty deque. */
    method PopFront()
      requires Valid() && Contents() != []
      modifies this, table
      ensures Valid() && Contents() == old(Contents())[1..]
      ensures table == old(table) && Buffers() <= old(Buffers())
    {
      hide Laid, Flatten, Rows, Idx, Placed;
      PlacedRange(size, lo, hi, rows, begin, end);
      Steps(size, lo, begin);
      SliceEnds(Flatten(rows), Idx(size, lo, begin), Idx(size, lo, end));
      if begin.off != size - 1 {
        begin := begin.(off := begin.off + 1);
        MakePlaced(size, lo, hi, rows, begin, end);
      } else {
        begin := Next(size, begin);
        MakePlaced(size, lo, hi, rows, begin, end);
        FreeInFront();
      }
    }

    /** destroy_buffer of the node in front of the first used one. */
    method FreeInFront()
      requires Valid() && lo < begin.node
      modifies table, this`lo, this`rows
      ensures Valid() && Contents() == old(Contents()) && Buffers() <= old(Buffers())
    {
      hide Laid, Flatten, Rows, Idx;
      ghost var post := rows[end.node - lo + 1..];
      ghost var core := Core(lo, rows, begin, end);
      OldContents(size, lo, hi, rows, begin, end);
      LaidTail(size, table[..], lo, hi, rows, begin.node);
      ghost var old0 := table[..];
      LaidRange(size, table[..], lo, hi, rows);
      table[begin.node - 1] := null;
      LaidSame(size, old0, table[..], begin.node, hi, rows[begin.node - lo..]);
      assert rows[begin.node - lo..] == [] + core + post;
      RowsConcat(size, rows[..end.node - lo + 1], post);
      assert rows == rows[..end.node - lo + 1] + post;
      lo, rows := begin.node, rows[begin.node - lo..];
      NoRows(size);
      CoreContents(size, lo, [], core, post, begin, end);
    }

    method PopBack()
      requires Valid() && Contents() != []
      modifies this, table
      ensures Valid() && Contents() == old(Contents())[..|old(Contents())| - 1]
      ensures table == old(table) && Buffers() <= old(Buffers())
    {
      hide Laid, Flatten, Rows, Idx, Placed;
      PlacedRange(size, lo, hi, rows, begin, end);
      Steps(size, lo, end);
      SliceEnds(Flatten(rows), Idx(size, lo, begin), Idx(size, lo, end));
      if end.off != 0 {
        end := end.(off := end.off - 1);
        MakePlaced(size, lo, hi, rows, begin, end);
      } else {
        end := Prev(size, end);
        MakePlaced(size, lo, hi, rows, begin, end);
        FreeBehind();
      }
    }

    /** destroy_buffer of the node behind the last used one. */
    method FreeBehind()
      requires Valid() && end.node < hi
      modifies table, this`hi, this`rows
      ensures Valid() && Contents() == old(Contents()) && Buffers() <= old(Buffers())
    {
      hide Laid, Flatten, Rows, Idx;
      ghost var n := end.node - lo + 1;
      ghost var pre := rows[..begin.node - lo];
      ghost var core := Core(lo, rows, begin, end);
      OldContents(size, lo, hi, rows, begin, end);
      LaidHead(size, table[..], lo, hi, rows, end.node);
      ghost var old0 := table[..];
      LaidRange(size, table[..], lo, hi, rows);
      table[end.node + 1] := null;
      LaidSame(size, old0, table[..], lo, end.node, rows[..n]);
      assert rows[..n] == pre + core + [];
      RowsConcat(size, pre, rows[begin.node - lo..]);
      assert rows == pre + rows[begin.node - lo..];
      hi, rows := end.node, rows[..n];
      NoRows(size);
      CoreContents(size, lo, pre, core, [], begin, end);
    }

    /** copy between iterators, front to back. */
    method CopyCells(first0: Iter, last: Iter, result0: Iter) returns (result: Iter)
      requires Laid(size, table[..], lo, hi, rows) && Rows(size, rows) && |rows| == hi + 1 - lo
      requires InBuffer(size, first0) && InBuffer(size, last) && InBuffer(size, result0)
      requires 0 <= Idx(size, lo, first0) <= Idx(size, lo, last) < |Flatten(rows)| && 0 <= Idx(size, lo, result0)
      requires Idx(size, lo, result0) <= Idx(size, lo, first0) || Idx(size, lo, last) <= Idx(size, lo, result0)
      requires Idx(size, lo, result0) + Idx(size, lo, last) - Idx(size, lo, first0) < |Flatten(rows)|
      modifies this`rows, Buffers()
      ensures Laid(size, table[..], lo, hi, rows) && Rows(size, rows) && |rows| == |old(rows)|
      ensures InBuffer(size, result)
                && Idx(size, lo, result) == Idx(size, lo, result0) + Idx(size, lo, last) - Idx(size, lo, first0)
      ensures |Flatten(rows)| == |old(Flatten(rows))|
      ensures Flatten(rows) == Overwrite(old(Flatten(rows)), Idx(size, lo, result0), old(Flatten(rows))[Idx(size, lo,
                first0)..Idx(size, lo, last)])
    {
      hide Laid, Flatten, Rows, Idx, Overwrite;
      var first := first0;
      result := result0;
      ghost var flat := Flatten(rows);
      ghost var f, l, r, i := Idx(size, lo, first0), Idx(size, lo, last), Idx(size, lo, result0), 0;
      OverwriteNothing(flat, r, f);
      IdxUnique(size, lo, first, last);
      while first != last
        invariant 0 <= i <= l - f && Idx(size, lo, first) == f + i && Idx(size, lo, result) == r + i
        invariant InBuffer(size, first) && InBuffer(size, result)
        invariant first == last <==> i == l - f
        invariant Laid(size, table[..], lo, hi, rows) && Rows(size, rows) && |rows| == |old(rows)|
        invariant Flatten(rows) == Overwrite(flat, r, flat[f..f + i]) && |Flatten(rows)| == |flat|
        decreases l - f - i
      {
        NodeInRange(size, lo, hi, rows, first);
        NodeInRange(size, lo, hi, rows, result);
        Steps(size, lo, first);
        Steps(size, lo, result);
        OverwriteStep(flat, r, f, l - f, i);
        var v := Get(first);
        Put(result, v);
        first, result := Next(size, first), Next(size, result);
        i := i + 1;
        IdxUnique(size, lo, first, last);
      }
    }

    /** copy_backward between iterators. */
    method CopyCellsBackward(first: Iter, last0: Iter, result0: Iter)
      requires Laid(size, table[..], lo, hi, rows) && Rows(size, rows) && |rows| == hi + 1 - lo
      requires InBuffer(size, first) && InBuffer(size, last0) && InBuffer(size, result0)
      requires 0 <= Idx(size, lo, first) <= Idx(size, lo, last0) <= Idx(size, lo, result0) < |Flatten(rows)|
      modifies this`rows, Buffers()
      ensures Laid(size, table[..], lo, hi, rows) && Rows(size, rows) && |rows| == |old(rows)|
      ensures |Flatten(rows)| == |old(Flatten(rows))|
      ensures Flatten(rows) == Overwrite(old(Flatten(rows)), Idx(size, lo, result0) - (Idx(size, lo,
                last0) - Idx(size, lo, first)),
                                         old(Flatten(rows))[Idx(size, lo, first)..Idx(size, lo, last0)])
    {
      hide Laid, Flatten, Rows, Idx, Overwrite;
      var last, result := last0, result0;
      ghost var flat := Flatten(rows);
      ghost var f, l, r, i := Idx(size, lo, first), Idx(size, lo, last0), Idx(size, lo, result0), 0;
      OverwriteNothing(flat, r, l);
      IdxUnique(size, lo, first, last);
      while first != last
        invariant 0 <= i <= l - f && Idx(size, lo, last) == l - i && Idx(size, lo, result) == r - i
        invariant InBuffer(size, last) && InBuffer(size, result)
        invariant first == last <==> i == l - f
        invariant Laid(size, table[..], lo, hi, rows) && Rows(size, rows) && |rows| == |old(rows)|
        invariant Flatten(rows) == Overwrite(flat, r - i, flat[l - i..l]) && |Flatten(rows)| == |flat|
        decreases l - f - i
      {
        Steps(size, lo, last);
        Steps(size, lo, result);
        result, last := Prev(size, result), Prev(size, last);
        NodeInRange(size, lo, hi, rows, last);
        NodeInRange(size, lo, hi, rows, result);
        OverwriteStepBack(flat, r, l, i);
        var v := Get(last);
        Put(result, v);
        i := i + 1;
        IdxUnique(size, lo, first, last);
      }
    }

    /** fill between iterators. */
    method FillCells(first0: Iter, last: Iter, value: int)
      requires Laid(size, table[..], lo, hi, rows) && Rows(size, rows) && |rows| == hi + 1 - lo
      requires InBuffer(size, first0) && InBuffer(size, last)
      requires 0 <= Idx(size, lo, first0) <= Idx(size, lo, last) < |Flatten(rows)|
      modifies this`rows, Buffers()
      ensures Laid(size, table[..], lo, hi, rows) && Rows(size, rows) && |rows| == |old(rows)|
      ensures |Flatten(rows)| == |old(Flatten(rows))|
      ensures Flatten(rows) == Overwrite(old(Flatten(rows)), Idx(size, lo, first0), Repeat(Idx(size, lo,
                last) - Idx(size, lo, first0), value))
    {
      hide Laid, Flatten, Rows, Idx, Overwrite;
      var first := first0;
      ghost var flat := Flatten(rows);
      ghost var f, l, i := Idx(size, lo, first0), Idx(size, lo, last), 0;
      OverwriteFill(flat, f, 0, value);
      IdxUnique(size, lo, first, last);
      while first != last
        invariant 0 <= i <= l - f && Idx(size, lo, first) == f + i && InBuffer(size, first)
        invariant first == last <==> i == l - f
        invariant Laid(size, table[..], lo, hi, rows) && Rows(size, rows) && |rows| == |old(rows)|
        invariant Flatten(rows) == Overwrite(flat, f, Repeat(i, value)) && |Flatten(rows)| == |flat|
        decreases l - f - i
      {
        NodeInRange(size, lo, hi, rows, first);
        Steps(size, lo, first);
        OverwriteFill(flat, f, i, value);
        Put(first, value);
        first := Next(size, first);
        i := i + 1;
        IdxUnique(size, lo, first, last);
      }
    }

    /** insert_aux, strictly inside: makes room by shifting the shorter side by one place. */
    method InsertInside(position0: Iter, value: int) returns (position: Iter)
      requires Valid() && InBuffer(size, position0)
      requires Idx(size, lo, begin) < Idx(size, lo, position0) < Idx(size, lo, end)
      modifies this, table, Buffers()
      ensures Valid() && InBuffer(size, position)
      ensures var i := old(Idx(size, lo, position0) - Idx(size, lo, begin));
              && Contents() == old(Contents())[..i] + [value] + old(Contents())[i..]
              && Idx(size, lo, position) == Idx(size, lo, begin) + i
      ensures forall b :: b in Buffers() ==> b in old(Buffers()) || fresh(b)
    {
      hide Laid, Flatten, Rows, Idx, Placed, Overwrite, Next, Prev, Plus, Minus;
      ghost var c := Contents();
      PlacedRange(size, lo, hi, rows, begin, end);
      MinusIdx(size, lo, position0, begin);
      MinusIdx(size, lo, end, begin);
      var elemsBefore, count := Minus(size, position0, begin), Minus(size, end, begin);
      if elemsBefore < count / 2 {
        var front := Get(begin);
        PushFront(front);
        PlacedRange(size, lo, hi, rows, begin, end);
        position := ShiftFront(elemsBefore, value, c);
      } else {
        Steps(size, lo, end);
        NodeInRange(size, lo, hi, rows, Prev(size, end));
        var back := Get(Prev(size, end));
        PushBack(back);
        position := ShiftBack(elemsBefore, value, c);
      }
    }

    method ShiftFront(i: nat, value: int, ghost c: seq<int>) returns (position: Iter)
      requires Valid() && 1 <= i < |c| && Contents() == [c[0]] + c
      modifies this`rows, Buffers()
      ensures Buffers() == old(Buffers())
      ensures Valid() && Contents() == c[..i] + [value] + c[i..]
      ensures InBuffer(size, position) && Idx(size, lo, position) == Idx(size, lo, begin) + i
    {
      hide Laid, Flatten, Rows, Idx, Placed, Overwrite, Next, Prev, Plus, Minus;
      PlacedRange(size, lo, hi, rows, begin, end);
      ghost var f, b, e := Flatten(rows), Idx(size, lo, begin), Idx(size, lo, end);
      Steps(size, lo, begin);
      var front1 := Next(size, begin);
      Steps(size, lo, front1);
      var front2 := Next(size, front1);
      PlusIdx(size, lo, begin, i);
      position := Plus(size, begin, i);
      Steps(size, lo, position);
      var pos := Next(size, position);
      var end1 := CopyCells(front2, pos, front1);
      NodeInRange(size, lo, hi, rows, position);
      Put(position, value);
      MakePlaced(size, lo, hi, rows, begin, end);
      ShiftedFront(f, b, e, c, i, value);
    }

    method ShiftBack(i: nat, value: int, ghost c: seq<int>) returns (position: Iter)
      requires Valid() && 1 <= i < |c| && Contents() == c + [c[|c| - 1]]
      modifies this`rows, Buffers()
      ensures Buffers() == old(Buffers())
      ensures Valid() && Contents() == c[..i] + [value] + c[i..]
      ensures InBuffer(size, position) && Idx(size, lo, position) == Idx(size, lo, begin) + i
    {
      hide Laid, Flatten, Rows, Idx, Placed, Overwrite, Next, Prev, Plus, Minus;
      PlacedRange(size, lo, hi, rows, begin, end);
      ghost var f, b, e := Flatten(rows), Idx(size, lo, begin), Idx(size, lo, end);
      Steps(size, lo, end);
      var back1 := Prev(size, end);
      Steps(size, lo, back1);
      var back2 := Prev(size, back1);
      PlusIdx(size, lo, begin, i);
      position := Plus(size, begin, i);
      CopyCellsBackward(position, back2, back1);
      NodeInRange(size, lo, hi, rows, position);
      Put(position, value);
      MakePlaced(size, lo, hi, rows, begin, end);
      ShiftedBack(f, b, e, c, i, value);
    }

    method FillFrontLong(i: nat, n: nat, value: int, ghost c: seq<int>)
      requires Valid() && 1 <= i < |c| && Contents() == c && n <= Idx(size, lo, begin) && n <= i
      modifies this`begin, this`rows, Buffers()
      ensures Valid() && Contents() == c[..i] + Repeat(n, value) + c[i..]
      ensures Buffers() == old(Buffers())
    {
      hide Laid, Flatten, Rows, Idx, Placed, Overwrite, Next, Prev, Plus, Minus;
      PlacedRange(size, lo, hi, rows, begin, end);
      ghost var f, b, e := Flatten(rows), Idx(size, lo, begin), Idx(size, lo, end);
      PlusIdx(size, lo, begin, 0 - n);
      PlusIdx(size, lo, begin, i);
      PlusIdx(size, lo, begin, n);
      var oldBegin, newBegin, position, beginN := begin, Plus(size, begin, 0 - n), Plus(size, begin, i), Plus(size,
          begin, n);
      var r1 := CopyCells(begin, beginN, newBegin);
      ghost var f1 := Flatten(rows);
      begin := newBegin;
      r1 := CopyCells(beginN, position, oldBegin);
      ghost var f2 := Flatten(rows);
      PlusIdx(size, lo, position, 0 - n);
      FillCells(Plus(size, position, 0 - n), position, value);
      MakePlaced(size, lo, hi, rows, begin, end);
      FilledFrontLong(f, f1, f2, Flatten(rows), b, e, c, i, n, value);
    }

    method FillFrontShort(i: nat, n: nat, value: int, ghost c: seq<int>)
      requires Valid() && 1 <= i < |c| && Contents() == c && n <= Idx(size, lo, begin) && i < n
      modifies this`begin, this`rows, Buffers()
      ensures Valid() && Contents() == c[..i] + Repeat(n, value) + c[i..]
      ensures Buffers() == old(Buffers())
    {
      hide Laid, Flatten, Rows, Idx, Placed, Overwrite, Next, Prev, Plus, Minus;
      PlacedRange(size, lo, hi, rows, begin, end);
      ghost var f, b, e := Flatten(rows), Idx(size, lo, begin), Idx(size, lo, end);
      PlusIdx(size, lo, begin, 0 - n);
      PlusIdx(size, lo, begin, i);
      var oldBegin, newBegin, position := begin, Plus(size, begin, 0 - n), Plus(size, begin, i);
      var r1 := CopyCells(begin, position, newBegin);
      ghost var f1 := Flatten(rows);
      FillCells(r1, begin, value);
      ghost var f2 := Flatten(rows);
      begin := newBegin;
      FillCells(oldBegin, position, value);
      MakePlaced(size, lo, hi, rows, begin, end);
      FilledFrontShort(f, f1, f2, Flatten(rows), b, e, c, i, n, value);
    }

    method FillBackLong(i: nat, n: nat, value: int, ghost c: seq<int>)
      requires Valid() && 1 <= i < |c| && Contents() == c && Idx(size, lo, end) + n < |Flatten(rows)| && n < |c| - i
      modifies this`end, this`rows, Buffers()
      ensures Valid() && Contents() == c[..i] + Repeat(n, value) + c[i..]
      ensures Buffers() == old(Buffers())
    {
      hide Laid, Flatten, Rows, Idx, Placed, Overwrite, Next, Prev, Plus, Minus;
      PlacedRange(size, lo, hi, rows, begin, end);
      ghost var f, b, e := Flatten(rows), Idx(size, lo, begin), Idx(size, lo, end);
      var after := Minus(size, end, begin) - i;
      MinusIdx(size, lo, end, begin);
      PlusIdx(size, lo, end, n);
      PlusIdx(size, lo, end, 0 - n);
      PlusIdx(size, lo, end, 0 - after);
      var oldEnd, newEnd, endN, position := end, Plus(size, end, n), Plus(size, end, 0 - n), Plus(size, end, 0 - after);
      var r1 := CopyCells(endN, end, end);
      ghost var f1 := Flatten(rows);
      end := newEnd;
      CopyCellsBackward(position, endN, oldEnd);
      ghost var f2 := Flatten(rows);
      PlusIdx(size, lo, position, n);
      FillCells(position, Plus(size, position, n), value);
      MakePlaced(size, lo, hi, rows, begin, end);
      FilledBackLong(f, f1, f2, Flatten(rows), b, e, c, i, n, value);
    }

    method FillBackShort(i: nat, n: nat, value: int, ghost c: seq<int>)
      requires Valid() && 1 <= i < |c| && Contents() == c && Idx(size, lo, end) + n < |Flatten(rows)| && |c| - i <= n
      modifies this`end, this`rows, Buffers()
      ensures Valid() && Contents() == c[..i] + Repeat(n, value) + c[i..]
      ensures Buffers() == old(Buffers())
    {
      hide Laid, Flatten, Rows, Idx, Placed, Overwrite, Next, Prev, Plus, Minus;
      PlacedRange(size, lo, hi, rows, begin, end);
      ghost var f, b, e := Flatten(rows), Idx(size, lo, begin), Idx(size, lo, end);
      var after := Minus(size, end, begin) - i;
      MinusIdx(size, lo, end, begin);
      PlusIdx(size, lo, end, n);
      PlusIdx(size, lo, end, 0 - after);
      var oldEnd, newEnd, position := end, Plus(size, end, n), Plus(size, end, 0 - after);
      PlusIdx(size, lo, position, n);
      FillCells(end, Plus(size, position, n), value);
      ghost var f1 := Flatten(rows);
      var r1 := CopyCells(position, end, Plus(size, position, n));
      ghost var f2 := Flatten(rows);
      end := newEnd;
      FillCells(position, oldEnd, value);
      MakePlaced(size, lo, hi, rows, begin, end);
      FilledBackShort(f, f1, f2, Flatten(rows), b, e, c, i, n, value);
    }

    /** fill_insert, strictly inside: n copies of a value at the position. */
    method FillInsert(position0: Iter, n: nat, value: int)
      requires Valid() && InBuffer(size, position0)
      requires Idx(size, lo, begin) < Idx(size, lo, position0) < Idx(size, lo, end)
      modifies this, table, Buffers()
      ensures var i := old(Idx(size, lo, position0) - Idx(size, lo, begin));
              Valid() && Contents() == old(Contents())[..i] + Repeat(n, value) + old(Contents())[i..]
      ensures forall b :: b in Buffers() ==> b in old(Buffers()) || fresh(b)
    {
      hide Laid, Flatten, Rows, Idx, Placed, Minus;
      ghost var c := Contents();
      PlacedRange(size, lo, hi, rows, begin, end);
      MinusIdx(size, lo, position0, begin);
      MinusIdx(size, lo, end, begin);
      var elemsBefore, len := Minus(size, position0, begin), Minus(size, end, begin);
      if elemsBefore < len / 2 {
        RequireCapacity(n, true);
        if elemsBefore >= n {
          FillFrontLong(elemsBefore, n, value, c);
        } else {
          FillFrontShort(elemsBefore, n, value, c);
        }
      } else {
        RequireCapacity(n, false);
        var elemsAfter := len - elemsBefore;
        if elemsAfter > n {
          FillBackLong(elemsBefore, n, value, c);
        } else {
          FillBackShort(elemsBefore, n, value, c);
        }
      }
    }

    method FillBefore(n: nat, value: int, ghost c: seq<int>)
      requires Valid() && Contents() == c && n <= Idx(size, lo, begin)
      modifies this`begin, this`rows, Buffers()
      ensures Valid() && Contents() == Repeat(n, value) + c
      ensures Buffers() == old(Buffers())
    {
      hide Laid, Flatten, Rows, Idx, Placed, Overwrite, Next, Prev, Plus, Minus;
      PlacedRange(size, lo, hi, rows, begin, end);
      ghost var f, b, e := Flatten(rows), Idx(size, lo, begin), Idx(size, lo, end);
      PlusIdx(size, lo, begin, 0 - n);
      var newBegin := Plus(size, begin, 0 - n);
      FillCells(newBegin, begin, value);
      begin := newBegin;
      MakePlaced(size, lo, hi, rows, begin, end);
      FilledOutside(f, Flatten(rows), b - n, b, e, c, n, value);
    }

    method FillBehind(n: nat, value: int, ghost c: seq<int>)
      requires Valid() && Contents() == c && Idx(size, lo, end) + n < |Flatten(rows)|
      modifies this`end, this`rows, Buffers()
      ensures Valid() && Contents() == c + Repeat(n, value)
      ensures Buffers() == old(Buffers())
    {
      hide Laid, Flatten, Rows, Idx, Placed, Overwrite, Next, Prev, Plus, Minus;
      PlacedRange(size, lo, hi, rows, begin, end);
      ghost var f, b, e := Flatten(rows), Idx(size, lo, begin), Idx(size, lo, end);
      PlusIdx(size, lo, end, n);
      var newEnd := Plus(size, end, n);
      FillCells(end, newEnd, value);
      end := newEnd;
      MakePlaced(size, lo, hi, rows, begin, end);
      FilledOutside(f, Flatten(rows), e, b, e, c, n, value);
    }

    /** insert of n copies anywhere, the ends included. */
    method InsertCopies(position: Iter, n: nat, value: int)
      requires Valid() && InBuffer(size, position)
      requires Idx(size, lo, begin) <= Idx(size, lo, position) <= Idx(size, lo, end)
      modifies this, table, Buffers()
      ensures var i := old(Idx(size, lo, position) - Idx(size, lo, begin));
              Valid() && Contents() == old(Contents())[..i] + Repeat(n, value) + old(Contents())[i..]
    {
      hide Laid, Flatten, Rows, Idx, Placed, Next, Prev, Plus, Minus, Repeat;
      PlacedRange(size, lo, hi, rows, begin, end);
      IdxUnique(size, lo, position, begin);
      IdxUnique(size, lo, position, end);
      ghost var c, r := Contents(), Repeat(n, value);
      assert c[..0] + r + c[0..] == r + c && c[..|c|] + r + c[|c|..] == c + r;
      if position == begin {
        RequireCapacity(n, true);
        FillBefore(n, value, c);
      } else if position == end {
        RequireCapacity(n, false);
        FillBehind(n, value, c);
      } else {
        FillInsert(position, n, value);
      }
    }

    /** insert of one value anywhere, the ends included. */
    method Insert(position0: Iter, value: int) returns (position: Iter)
      requires Valid() && InBuffer(size, position0)
      requires Idx(size, lo, begin) <= Idx(size, lo, position0) <= Idx(size, lo, end)
      modifies this, table, Buffers()
      ensures var i := old(Idx(size, lo, position0) - Idx(size, lo, begin));
              && Valid() && InBuffer(size, position) && Idx(size, lo, position) == Idx(size, lo, begin) + i
              && Contents() == old(Contents())[..i] + [value] + old(Contents())[i..]
    {
      hide Laid, Flatten, Rows, Idx, Placed, Next, Prev, Plus, Minus;
      PlacedRange(size, lo, hi, rows, begin, end);
      IdxUnique(size, lo, position0, begin);
      IdxUnique(size, lo, position0, end);
      ghost var c := Contents();
      assert c[..0] + [value] + c[0..] == [value] + c && c[..|c|] + [value] + c[|c|..] == c + [value];
      if position0 == begin {
        PushFront(value);
        PlacedRange(size, lo, hi, rows, begin, end);
        return begin;
      } else if position0 == end {
        PushBack(value);
        PlacedRange(size, lo, hi, rows, begin, end);
        Steps(size, lo, end);
        return Prev(size, end);
      } else {
        position := InsertInside(position0, value);
      }
    }
  }

  lemma RowsLaid(size: nat, buffers: seq<array?<int>>, lo: int, hi: int, rows: seq<seq<int>>)
    requires Laid(size, buffers, lo, hi, rows)
    ensures Rows(size, rows) && size > 0 && |rows| == hi + 1 - lo && 0 <= lo <= hi < |buffers|
  {
    forall r | 0 <= r < |rows|
      ensures |rows[r]| == size
    {
      assert buffers[lo + r][..] == rows[lo + r - lo];
    }
  }

  lemma RowAt(size: nat, buffers: seq<array?<int>>, lo: int, hi: int, rows: seq<seq<int>>, k: int)
    requires Laid(size, buffers, lo, hi, rows) && lo <= k <= hi
    ensures buffers[k] != null && buffers[k].Length == size && buffers[k][..] == rows[k - lo]
  {
  }

  lemma RowsConcat(size: nat, a: seq<seq<int>>, b: seq<seq<int>>)
    ensures Rows(size, a + b) <==> Rows(size, a) && Rows(size, b)
  {
    if Rows(size, a + b) {
      assert forall r :: 0 <= r < |a| ==> a[r] == (a + b)[r];
      assert forall r :: 0 <= r < |b| ==> b[r] == (a + b)[|a| + r];
    }
  }

  /** The contents depend on the rows from the first to the last used buffer only, wherever these lie in the map. */
  lemma CoreContents(size: nat, lo: int, pre: seq<seq<int>>, core: seq<seq<int>>, post: seq<seq<int>>, begin: Iter,
          end: Iter)
    requires size > 0 && Rows(size, pre) && Rows(size, core) && Rows(size, post)
    requires begin.node == lo + |pre| && |core| == end.node - begin.node + 1 && InBuffer(size, begin)
              && InBuffer(size, end)
    requires 1 <= |core| && begin.off <= Idx(size, begin.node, end)
    ensures var rows := pre + core + post;
            && Placed(size, lo, lo + |rows| - 1, rows, begin, end)
            && Idx(size, lo, begin) == size * |pre| + begin.off && |Flatten(rows)| == size * |rows|
            && Idx(size, begin.node, end) <= |Flatten(core)|
            && Flatten(rows)[Idx(size, lo, begin)..Idx(size, lo, end)] == Flatten(core)[begin.off..Idx(size,
                begin.node, end)]
  {
    var rows := pre + core + post;
    RowsConcat(size, pre, core);
    RowsConcat(size, pre + core, post);
    FlatConcat(pre, core);
    FlatConcat(pre + core, post);
    FlatLength(size, pre);
    FlatLength(size, core);
    FlatLength(size, post);
    FlatLength(size, rows);
    IdxMoved(size, lo, begin.node, begin);
    IdxMoved(size, lo, begin.node, end);
    EndInside(size, begin.node, end, |core|);
    hide Flatten, Rows;
    InnerSlice(Flatten(pre), Flatten(core), Flatten(post), begin.off, Idx(size, begin.node, end));
  }

  lemma IdxMoved(size: nat, lo: int, base: int, it: Iter)
    ensures Idx(size, lo, it) == size * (base - lo) + Idx(size, base, it)
  {
    assert size * (it.node - lo) == size * (base - lo) + size * (it.node - base);
  }

  lemma EndInside(size: nat, base: int, end: Iter, n: nat)
    requires InBuffer(size, end) && n == end.node - base + 1
    ensures Idx(size, base, end) < size * n
  {
    assert size * n == size * (end.node - base) + size;
  }

  lemma InnerSlice<T>(a: seq<T>, b: seq<T>, c: seq<T>, i: nat, j: nat)
    requires i <= j <= |b|
    ensures (a + b + c)[|a| + i..|a| + j] == b[i..j]
  {
  }

  /** The rows from the first to the last used buffer. */
  function Core(lo: int, rows: seq<seq<int>>, begin: Iter, end: Iter): seq<seq<int>>
    requires lo <= begin.node <= end.node < lo + |rows|
  {
    rows[begin.node - lo..end.node - lo + 1]
  }

  lemma OldContents(size: nat, lo: int, hi: int, rows: seq<seq<int>>, begin: Iter, end: Iter)
    requires Placed(size, lo, hi, rows, begin, end)
    ensures var core := Core(lo, rows, begin, end);
            && Rows(size, core) && |core| == end.node - begin.node + 1
                && begin.off <= Idx(size, begin.node, end) <= |Flatten(core)|
            && Flatten(rows)[Idx(size, lo, begin)..Idx(size, lo, end)] == Flatten(core)[begin.off..Idx(size,
                begin.node, end)]
  {
    var pre, core, post := rows[..begin.node - lo], Core(lo, rows, begin, end), rows[end.node - lo + 1..];
    assert rows == pre + core + post;
    RowsConcat(size, pre, core);
    RowsConcat(size, pre + core, post);
    MinusIdx(size, lo, end, begin);
    MinusIdx(size, begin.node, end, begin);
    IdxMoved(size, begin.node, begin.node, begin);
    hide Flatten, Rows;
    CoreContents(size, lo, pre, core, post, begin, end);
  }

  /** create_buffer for the nodes nstart..nfinish. */
  method CreateBuffers(table: array<array?<int>>, nstart: nat, nfinish: int, size: nat)
    requires nstart <= nfinish + 1 <= table.Length
    modifies table
    ensures forall k :: nstart <= k <= nfinish ==> table[k] != null && fresh(table[k]) && table[k].Length == size
    ensures forall k, l :: nstart <= k < l <= nfinish ==> table[k] != table[l]
    ensures forall k :: 0 <= k < table.Length && !(nstart <= k <= nfinish) ==> table[k] == old(table[k])
  {
    var cur := nstart;
    while cur <= nfinish
      invariant nstart <= cur <= nfinish + 1
      invariant forall k :: nstart <= k < cur ==> table[k] != null && fresh(table[k]) && table[k].Length == size
      invariant forall k, l :: nstart <= k < l < cur ==> table[k] != table[l]
      invariant forall k :: 0 <= k < table.Length && !(nstart <= k < cur) ==> table[k] == old(table[k])
      decreases nfinish + 1 - cur
    {
      var buffer := new int[size];
      table[cur] := buffer;
      cur := cur + 1;
    }
  }

  /** What the nodes nstart..nfinish hold. */
  ghost function Held(buffers: seq<array?<int>>, nstart: nat, nfinish: int): (rows: seq<seq<int>>)
    requires nstart <= nfinish + 1 <= |buffers| && forall k :: nstart <= k <= nfinish ==> buffers[k] != null
    reads set k | 0 <= k < |buffers| && buffers[k] != null :: buffers[k]
    ensures |rows| == nfinish + 1 - nstart && forall k :: nstart <= k <= nfinish ==> rows[k - nstart] == buffers[k][..]
    decreases nfinish + 1 - nstart
  {
    if nfinish < nstart then [] else Held(buffers, nstart, nfinish - 1) + [buffers[nfinish][..]]
  }

  /** The nodes lo..hi are laid out when lo..m and m + 1..hi are. */
  lemma LaidTogether(size: nat, buffers: seq<array?<int>>, lo: int, m: int, hi: int, a: seq<seq<int>>, b: seq<seq<int>>)
    requires Laid(size, buffers, lo, m, a) && Laid(size, buffers, m + 1, hi, b)
    requires forall k, l :: lo <= k <= m < l <= hi ==> buffers[k] != buffers[l]
    ensures Laid(size, buffers, lo, hi, a + b)
  {
    forall k | lo <= k <= hi
      ensures buffers[k] != null && buffers[k].Length == size && buffers[k][..] == (a + b)[k - lo]
    {
      if k <= m {
        assert (a + b)[k - lo] == a[k - lo];
      } else {
        assert (a + b)[k - lo] == b[k - (m + 1)];
      }
    }
  }

  lemma LaidCore(size: nat, buffers: seq<array?<int>>, lo: int, hi: int, rows: seq<seq<int>>, begin: Iter, end: Iter)
    requires Laid(size, buffers, lo, hi, rows) && lo <= begin.node <= end.node <= hi
    ensures Laid(size, buffers, begin.node, end.node, Core(lo, rows, begin, end))
  {
    var core := Core(lo, rows, begin, end);
    forall k | begin.node <= k <= end.node
      ensures buffers[k][..] == core[k - begin.node]
    {
      assert core[k - begin.node] == rows[k - lo];
    }
  }

  lemma LaidNew(size: nat, buffers: seq<array?<int>>, nstart: nat, nfinish: int)
    requires size > 0 && nstart <= nfinish < |buffers|
    requires forall k :: nstart <= k <= nfinish ==> buffers[k] != null && buffers[k].Length == size
    requires forall k, l :: nstart <= k < l <= nfinish ==> buffers[k] != buffers[l]
    ensures Laid(size, buffers, nstart, nfinish, Held(buffers, nstart, nfinish))
              && Rows(size, Held(buffers, nstart, nfinish))
  {
    var rows := Held(buffers, nstart, nfinish);
    forall r | 0 <= r < |rows|
      ensures |rows[r]| == size
    {
      assert rows[nstart + r - nstart] == buffers[nstart + r][..];
    }
  }

  lemma LaidSame(size: nat, buffers: seq<array?<int>>, buffers': seq<array?<int>>, lo: int, hi: int,
          rows: seq<seq<int>>)
    requires Laid(size, buffers, lo, hi, rows) && hi < |buffers'|
    requires forall k :: lo <= k <= hi ==> buffers'[k] == buffers[k]
    ensures Laid(size, buffers', lo, hi, rows)
  {
  }

  lemma NoRows(size: nat)
    ensures Rows(size, [])
  {
  }

  lemma RoomBehind(size: nat, lo: int, end: Iter, n: nat, need: nat)
    requires n == end.node - lo + 1 + need
    ensures size * n - Idx(size, lo, end) == size * need + size - end.off
  {
    assert size * n == size * (end.node - lo) + size + size * need;
  }

  /** New buffers for the nodes nstart..m in front of those that hold `core`. */
  method BuffersBefore(table: array<array?<int>>, size: nat, nstart: nat, m: nat, hi: nat, ghost core: seq<seq<int>>)
    returns (ghost pre: seq<seq<int>>)
    requires nstart <= m < hi < table.Length && Laid(size, table[..], m + 1, hi, core)
    modifies table
    ensures Laid(size, table[..], nstart, hi, pre + core) && Rows(size, pre) && |pre| == m + 1 - nstart
    ensures forall k :: 0 <= k < table.Length && table[k] != null ==> fresh(table[k]) || table[k] == old(table[k])
  {
    hide Laid, Rows;
    ghost var old0 := table[..];
    LaidSize(size, old0, m + 1, hi, core);
    CreateBuffers(table, nstart, m, size);
    LaidSame(size, old0, table[..], m + 1, hi, core);
    pre := Held(table[..], nstart, m);
    LaidNew(size, table[..], nstart, m);
    LaidTogether(size, table[..], nstart, m, hi, pre, core);
  }

  /** New buffers for the nodes behind m up to nfinish. */
  method BuffersBehind(table: array<array?<int>>, size: nat, lo: nat, m: nat, nfinish: nat, ghost core: seq<seq<int>>)
    returns (ghost post: seq<seq<int>>)
    requires lo <= m < nfinish < table.Length && Laid(size, table[..], lo, m, core)
    modifies table
    ensures Laid(size, table[..], lo, nfinish, core + post) && Rows(size, post) && |post| == nfinish - m
    ensures forall k :: 0 <= k < table.Length && table[k] != null ==> fresh(table[k]) || table[k] == old(table[k])
  {
    hide Laid, Rows;
    ghost var old0 := table[..];
    LaidSize(size, old0, lo, m, core);
    CreateBuffers(table, m + 1, nfinish, size);
    LaidSame(size, old0, table[..], lo, m, core);
    post := Held(table[..], m + 1, nfinish);
    LaidNew(size, table[..], m + 1, nfinish);
    LaidTogether(size, table[..], lo, m, nfinish, core, post);
  }

  lemma LaidSize(size: nat, buffers: seq<array?<int>>, lo: int, hi: int, rows: seq<seq<int>>)
    requires Laid(size, buffers, lo, hi, rows)
    ensures size > 0
  {
  }

  /** How large the next map is. */
  function NewMapSize(mapSize: nat, need: nat): nat {
    var a, b := mapSize * 2, mapSize + need + MAP_INIT_SIZE;
    if a >= b then a else b
  }

  /** Where `count` buffers start in the middle of a map. */
  function Middle(mapSize: nat, count: nat): int {
    (mapSize - count) / 2
  }

  lemma MiddleFits(mapSize: nat, used: nat, need: nat)
    requires used <= mapSize
    ensures var m := Middle(NewMapSize(mapSize, need), used + need);
            0 <= m && m + used + need <= NewMapSize(mapSize, need)
  {
  }

  lemma LaidRange(size: nat, buffers: seq<array?<int>>, lo: int, hi: int, rows: seq<seq<int>>)
    requires Laid(size, buffers, lo, hi, rows)
    ensures 0 <= lo <= hi < |buffers|
  {
  }

  lemma SameDistance(size: nat, begin: Iter, end: Iter, mid: int)
    ensures Idx(size, begin.node, end) == Idx(size, mid, Iter(mid + (end.node - begin.node), end.off))
  {
  }

  lemma LaidShift(size: nat, buffers: seq<array?<int>>, b0: int, b1: int, core: seq<seq<int>>,
          buffers': seq<array?<int>>, at: nat)
    requires Laid(size, buffers, b0, b1, core) && at + (b1 - b0) < |buffers'|
    requires forall k :: at <= k <= at + (b1 - b0) ==> buffers'[k] == buffers[k - at + b0]
    ensures Laid(size, buffers', at, at + (b1 - b0), core)
  {
  }

  /** Copies the pointers of the nodes b0..b1 to the nodes of the new map that start at `at`. */
  method MovePointers(table: array<array?<int>>, b0: nat, b1: nat, newMap: array<array?<int>>, at: nat)
    requires table != newMap && b0 <= b1 < table.Length && at + (b1 - b0) < newMap.Length
    modifies newMap
    ensures forall k :: at <= k <= at + (b1 - b0) ==> newMap[k] == table[k - at + b0]
    ensures forall k :: 0 <= k < newMap.Length && !(at <= k <= at + (b1 - b0)) ==> newMap[k] == old(newMap[k])
  {
    var begin1, begin2 := at, b0;
    while begin2 != b1 + 1
      invariant b0 <= begin2 <= b1 + 1 && begin1 - at == begin2 - b0
      invariant forall k :: at <= k < begin1 ==> newMap[k] == table[k - at + b0]
      invariant forall k :: 0 <= k < newMap.Length && !(at <= k < begin1) ==> newMap[k] == old(newMap[k])
      decreases b1 + 1 - begin2
    {
      newMap[begin1] := table[begin2];
      begin1, begin2 := begin1 + 1, begin2 + 1;
    }
  }

  /** No buffer comes from anywhere but the old map or is new. */
  twostate predicate Inherits(table: array<array?<int>>, new newMap: array<array?<int>>)
    reads table, newMap
  {
    forall k :: 0 <= k < newMap.Length && newMap[k] != null ==>
      fresh(newMap[k]) || exists l :: 0 <= l < table.Length && newMap[k] == table[l]
  }

  method NewMapFront(table: array<array?<int>>, size: nat, b0: nat, b1: nat, need: nat, ghost core: seq<seq<int>>)
    returns (newMap: array<array?<int>>, nstart: nat, ghost pre: seq<seq<int>>)
    requires b0 <= b1 < table.Length && Laid(size, table[..], b0, b1, core) && 1 <= need
    ensures fresh(newMap) && nstart + need + (b1 - b0) < newMap.Length && Inherits(table, newMap)
    ensures Laid(size, newMap[..], nstart, nstart + need + (b1 - b0), pre + core) && Rows(size, pre) && |pre| == need
  {
    hide Rows, Laid;
    var newMapSize, count := NewMapSize(table.Length, need), b1 - b0 + 1 + need;
    newMap := new array?<int>[newMapSize](_ => null);
    MiddleFits(table.Length, b1 - b0 + 1, need);
    nstart := Middle(newMapSize, count);
    pre := FillFront(table, size, b0, b1, newMap, nstart, nstart + need, core);
  }

  /** create_buffer for nstart..mid - 1, and the used buffers behind them. */
  method FillFront(table: array<array?<int>>, size: nat, b0: nat, b1: nat, newMap: array<array?<int>>, nstart: nat,
          mid: nat, ghost core: seq<seq<int>>)
    returns (ghost pre: seq<seq<int>>)
    requires table != newMap && b0 <= b1 < table.Length && Laid(size, table[..], b0, b1, core)
    requires nstart < mid && mid + (b1 - b0) < newMap.Length
    modifies newMap
    ensures Laid(size, newMap[..], nstart, mid + (b1 - b0), pre + core) && Rows(size, pre) && |pre| == mid - nstart
    ensures forall k :: nstart <= k < mid ==> newMap[k] != null && fresh(newMap[k])
    ensures forall k :: mid <= k <= mid + (b1 - b0) ==> newMap[k] == table[k - mid + b0]
    ensures forall k :: 0 <= k < newMap.Length && !(nstart <= k <= mid + (b1 - b0)) ==> newMap[k] == old(newMap[k])
  {
    hide Rows, Laid;
    LaidSize(size, table[..], b0, b1, core);
    CreateBuffers(newMap, nstart, mid - 1, size);
    MovePointers(table, b0, b1, newMap, mid);
    LaidShift(size, table[..], b0, b1, core, newMap[..], mid);
    LaidNew(size, newMap[..], nstart, mid - 1);
    pre := Held(newMap[..], nstart, mid - 1);
    LaidTogether(size, newMap[..], nstart, mid - 1, mid + (b1 - b0), pre, core);
  }

  method NewMapBack(table: array<array?<int>>, size: nat, b0: nat, b1: nat, need: nat, ghost core: seq<seq<int>>)
    returns (newMap: array<array?<int>>, nstart: nat, ghost post: seq<seq<int>>)
    requires b0 <= b1 < table.Length && Laid(size, table[..], b0, b1, core) && 1 <= need
    ensures fresh(newMap) && nstart + need + (b1 - b0) < newMap.Length && Inherits(table, newMap)
    ensures Laid(size, newMap[..], nstart, nstart + (b1 - b0) + need, core + post) && Rows(size, post) && |post| == need
  {
    hide Rows, Laid;
    var newMapSize, count := NewMapSize(table.Length, need), b1 - b0 + 1 + need;
    newMap := new array?<int>[newMapSize](_ => null);
    MiddleFits(table.Length, b1 - b0 + 1, need);
    nstart := Middle(newMapSize, count);
    post := FillBack(table, size, b0, b1, newMap, nstart, need, core);
  }

  method FillBack(table: array<array?<int>>, size: nat, b0: nat, b1: nat, newMap: array<array?<int>>, nstart: nat,
          need: nat, ghost core: seq<seq<int>>)
    returns (ghost post: seq<seq<int>>)
    requires table != newMap && b0 <= b1 < table.Length && Laid(size, table[..], b0, b1, core)
    requires 1 <= need && nstart + (b1 - b0) + need < newMap.Length
    modifies newMap
    ensures Laid(size, newMap[..], nstart, nstart + (b1 - b0) + need, core + post) && Rows(size, post) && |post| == need
    ensures forall k :: nstart + (b1 - b0) < k <= nstart + (b1 - b0) + need ==> newMap[k] != null && fresh(newMap[k])
    ensures forall k :: nstart <= k <= nstart + (b1 - b0) ==> newMap[k] == table[k - nstart + b0]
    ensures forall k :: 0 <= k < newMap.Length && !(nstart <= k <= nstart + (b1 - b0) + need) ==>
              newMap[k] == old(newMap[k])
  {
    hide Rows, Laid;
    var last := nstart + (b1 - b0);
    LaidSize(size, table[..], b0, b1, core);
    MovePointers(table, b0, b1, newMap, nstart);
    CreateBuffers(newMap, last + 1, last + need, size);
    LaidShift(size, table[..], b0, b1, core, newMap[..], nstart);
    LaidNew(size, newMap[..], last + 1, last + need);
    post := Held(newMap[..], last + 1, last + need);
    LaidTogether(size, newMap[..], nstart, last, last + need, core, post);
  }

  lemma EnoughBuffers(size: nat, n: nat)
    requires size > 0
    ensures size * (n / size + 1) >= n && n / size + 1 >= 1
  {
    DivMod(n, size);
  }

  /** Within the first and the last buffer there is room already. */
  lemma RoomAt(size: nat, lo: int, hi: int, rows: seq<seq<int>>, begin: Iter, end: Iter)
    requires Placed(size, lo, hi, rows, begin, end)
    ensures begin.off <= Idx(size, lo, begin) && Idx(size, lo, end) + (size - end.off - 1) < |Flatten(rows)|
    ensures |Flatten(rows)| == size * |rows| && lo <= begin.node <= end.node <= hi && size > 0
              && InBuffer(size, begin) && InBuffer(size, end)
  {
    FlatLength(size, rows);
    RoomBehind(size, lo, end, end.node - lo + 1, 0);
    AtLeastOneFactor(size, |rows| - (end.node - lo + 1));
    assert size * |rows| == size * (end.node - lo + 1) + size * (|rows| - (end.node - lo + 1));
    AtLeastOneFactor(size, begin.node - lo);
  }

  lemma PlacedRange(size: nat, lo: int, hi: int, rows: seq<seq<int>>, begin: Iter, end: Iter)
    requires Placed(size, lo, hi, rows, begin, end)
    ensures size > 0 && InBuffer(size, begin) && InBuffer(size, end) && |rows| == hi + 1 - lo && Rows(size, rows)
    ensures lo <= begin.node <= end.node <= hi
    ensures 0 <= Idx(size, lo, begin) <= Idx(size, lo, end) < |Flatten(rows)| == size * |rows|
  {
    FlatLength(size, rows);
  }

  /** A place with an index inside the storage lies in one of the buffers. */
  lemma NodeInRange(size: nat, lo: int, hi: int, rows: seq<seq<int>>, it: Iter)
    requires Rows(size, rows) && |rows| == hi + 1 - lo && InBuffer(size, it) && 0 <= Idx(size, lo, it) < |Flatten(rows)|
    ensures lo <= it.node <= hi
  {
    FlatLength(size, rows);
    AtLeastOneFactor(size, it.node - lo);
    AtLeastOneFactor(size, it.node - lo - |rows|);
    assert size * (it.node - lo) == size * |rows| + size * (it.node - lo - |rows|);
  }

  lemma MakePlaced(size: nat, lo: int, hi: int, rows: seq<seq<int>>, begin: Iter, end: Iter)
    requires size > 0 && Rows(size, rows) && |rows| == hi + 1 - lo && InBuffer(size, begin) && InBuffer(size, end)
    requires 0 <= Idx(size, lo, begin) <= Idx(size, lo, end) < |Flatten(rows)|
    ensures Placed(size, lo, hi, rows, begin, end)
  {
    NodeInRange(size, lo, hi, rows, begin);
    NodeInRange(size, lo, hi, rows, end);
    IdxUnique(size, lo, begin, end);
    IdxUnique(size, lo, end, begin);
  }

  lemma OneMore(flat: seq<int>, i: nat, j: nat, c: seq<int>, v: int)
    requires i <= j < |flat| && flat[i..j] == c && flat[j] == v
    ensures flat[i..j + 1] == c + [v]
  {
  }

  lemma OneMoreFront(flat: seq<int>, i: nat, j: nat, c: seq<int>, v: int)
    requires i < j <= |flat| && flat[i + 1..j] == c && flat[i] == v
    ensures flat[i..j] == [v] + c
  {
  }

  lemma LaidTail(size: nat, buffers: seq<array?<int>>, lo: int, hi: int, rows: seq<seq<int>>, m: int)
    requires Laid(size, buffers, lo, hi, rows) && lo <= m <= hi
    ensures Laid(size, buffers, m, hi, rows[m - lo..])
  {
  }

  lemma LaidHead(size: nat, buffers: seq<array?<int>>, lo: int, hi: int, rows: seq<seq<int>>, m: int)
    requires Laid(size, buffers, lo, hi, rows) && lo <= m <= hi
    ensures Laid(size, buffers, lo, m, rows[..m - lo + 1])
  {
  }

  lemma OverwriteNothing(s: seq<int>, r: nat, f: nat)
    requires r <= |s| && f <= |s|
    ensures Overwrite(s, r, s[f..f]) == s
  {
  }

  /** Copying front to back: what is read has not been overwritten yet. */
  lemma OverwriteStep(s: seq<int>, r: nat, f: nat, n: nat, i: nat)
    requires (r <= f || f + n <= r) && i < n && f + n <= |s| && r + n <= |s|
    ensures Overwrite(s, r, s[f..f + i])[f + i] == s[f + i]
    ensures Overwrite(s, r, s[f..f + i])[r + i := s[f + i]] == Overwrite(s, r, s[f..f + (i + 1)])
  {
  }

  /** Copying back to front. */
  lemma OverwriteStepBack(s: seq<int>, r: nat, l: nat, i: nat)
    requires l <= r <= |s| && i < l
    ensures Overwrite(s, r - i, s[l - i..l])[l - i - 1] == s[l - i - 1]
    ensures Overwrite(s, r - i, s[l - i..l])[r - i - 1 := s[l - i - 1]] == Overwrite(s, r - (i + 1), s[l - (i + 1)..l])
  {
  }

  function Repeat(n: nat, v: int): (s: seq<int>)
    ensures |s| == n && forall i :: 0 <= i < n ==> s[i] == v
  {
    seq(n, _ => v)
  }

  lemma OverwriteFill(s: seq<int>, f: nat, i: nat, v: int)
    requires f + i < |s|
    ensures Overwrite(s, f, Repeat(0, v)) == s
    ensures Overwrite(s, f, Repeat(i, v))[f + i := v] == Overwrite(s, f, Repeat(i + 1, v))
  {
  }

  lemma ShiftedFront(f: seq<int>, b: nat, e: nat, c: seq<int>, i: nat, v: int)
    requires b <= e <= |f| && 1 <= i < |c| && f[b..e] == [c[0]] + c
    ensures b + i + 1 <= |f|
    ensures Overwrite(f, b + 1, f[b + 2..b + i + 1])[b + i := v][b..e] == c[..i] + [v] + c[i..]
  {
    var g := f[b..e];
    assert forall k :: 0 <= k < |g| ==> f[b + k] == g[k];
    var part := f[b + 2..b + i + 1];
    assert forall k :: 0 <= k < |part| ==> part[k] == g[k + 2] == c[k + 1];
    var t := Overwrite(f, b + 1, part)[b + i := v];
    var r := c[..i] + [v] + c[i..];
    forall k | 0 <= k < |g|
      ensures t[b + k] == r[k]
    {
      OverwrittenAt(f, b + 1, part, b + k);
      hide Overwrite;
    }
  }

  lemma OverwrittenAt(s: seq<int>, at: nat, part: seq<int>, k: nat)
    requires at + |part| <= |s| && k < |s|
    ensures |Overwrite(s, at, part)| == |s|
    ensures Overwrite(s, at, part)[k] == if at <= k < at + |part| then part[k - at] else s[k]
  {
  }

  lemma ShiftedBack(f: seq<int>, b: nat, e: nat, c: seq<int>, i: nat, v: int)
    requires b <= e <= |f| && 1 <= i < |c| && f[b..e] == c + [c[|c| - 1]]
    ensures e == b + |c| + 1
    ensures Overwrite(f, e - 1 - (e - 2 - (b + i)), f[b + i..e - 2])[b + i := v][b..e] == c[..i] + [v] + c[i..]
  {
    var g := f[b..e];
    assert forall k :: 0 <= k < |g| ==> f[b + k] == g[k];
    var part := f[b + i..e - 2];
    assert forall k :: 0 <= k < |part| ==> part[k] == g[i + k] == c[i + k];
    var t := Overwrite(f, b + i + 1, part)[b + i := v];
    var r := c[..i] + [v] + c[i..];
    forall k | 0 <= k < |g|
      ensures t[b + k] == r[k]
    {
      OverwrittenAt(f, b + i + 1, part, b + k);
      hide Overwrite;
    }
  }

  lemma UpdateOutside(s: seq<int>, i: nat, v: int, b: nat, e: nat)
    requires i < |s| && b <= e <= |s| && !(b <= i < e)
    ensures s[i := v][b..e] == s[b..e]
  {
  }

  lemma RepeatAt(n: nat, v: int)
    ensures |Repeat(n, v)| == n && forall i :: 0 <= i < n ==> Repeat(n, v)[i] == v
  {
  }

  lemma SliceAt(f: seq<int>, b: nat, e: nat, c: seq<int>)
    requires b <= e <= |f| && f[b..e] == c
    ensures forall x :: b <= x < e ==> f[x] == c[x - b]
  {
  }

  lemma Inserted(c: seq<int>, i: nat, n: nat, v: int)
    requires i <= |c|
    ensures var r := c[..i] + Repeat(n, v) + c[i..];
            |r| == |c| + n && forall k :: 0 <= k < |r| ==>
                      r[k] == if k < i then c[k] else if k < i + n then v else c[k - n]
  {
  }

  lemma SliceEnds(f: seq<int>, b: nat, e: nat)
    requires b < e <= |f|
    ensures f[b..e - 1] == f[b..e][..e - 1 - b] && f[b + 1..e] == f[b..e][1..]
  {
  }

  /** Filling next to the elements, before them or behind them, touches none of them. */
  lemma FilledOutside(f: seq<int>, f1: seq<int>, at: nat, b: nat, e: nat, c: seq<int>, n: nat, v: int)
    requires b <= e <= |f| == |f1| && f[b..e] == c && (at + n == b || at == e) && at + n <= |f|
    requires f1 == Overwrite(f, at, Repeat(n, v))
    ensures at + n == b ==> f1[at..e] == Repeat(n, v) + c
    ensures at == e ==> f1[b..e + n] == c + Repeat(n, v)
  {
    hide Repeat;
    OverwriteParts(f, at, Repeat(n, v));
    hide Overwrite;
    if at + n == b {
      assert f1[at..e] == f1[at..b] + f1[b..][..e - b];
    }
    if at == e {
      assert f1[b..e + n] == f1[..e][b..] + f1[e..e + n];
    }
  }

  lemma FrontLongAt(f: seq<int>, f1: seq<int>, f2: seq<int>, f3: seq<int>, b: nat, e: nat, i: nat, n: nat, v: int,
          x: nat)
    requires n <= b && n <= i && b + i <= e <= |f| && |f1| == |f2| == |f3| == |f|
    requires f1 == Overwrite(f, b - n, f[b..b + n])
    requires f2 == Overwrite(f1, b, f1[b + n..b + i])
    requires f3 == Overwrite(f2, b + i - n, Repeat(n, v))
    requires b - n <= x < e
    ensures f3[x] == if x < b - n + i then f[x + n] else if x < b + i then v else f[x]
  {
    hide Overwrite, Repeat;
    OverwrittenAt(f2, b + i - n, Repeat(n, v), x);
    OverwrittenAt(f1, b, f1[b + n..b + i], x);
    OverwrittenAt(f, b - n, f[b..b + n], x);
    if b <= x < b + i - n {
      OverwrittenAt(f, b - n, f[b..b + n], x + n);
    }
  }

  lemma FilledFrontLong(f: seq<int>, f1: seq<int>, f2: seq<int>, f3: seq<int>, b: nat, e: nat, c: seq<int>, i: nat,
          n: nat, v: int)
    requires b <= e <= |f| && 1 <= i < |c| && f[b..e] == c && n <= i && n <= b
    requires |f1| == |f2| == |f3| == |f|
    requires f1 == Overwrite(f, b - n, f[b..b + n])
    requires f2 == Overwrite(f1, b, f1[b + n..b + i])
    requires f3 == Overwrite(f2, b + i - n, Repeat(n, v))
    ensures f3[b - n..e] == c[..i] + Repeat(n, v) + c[i..]
  {
    var r := c[..i] + Repeat(n, v) + c[i..];
    hide Overwrite, Repeat;
    SliceAt(f, b, e, c);
    Inserted(c, i, n, v);
    forall x | b - n <= x < e
      ensures f3[x] == r[x - (b - n)]
    {
      FrontLongAt(f, f1, f2, f3, b, e, i, n, v, x);
    }
  }

  lemma FrontShortAt(f: seq<int>, f1: seq<int>, f2: seq<int>, f3: seq<int>, b: nat, e: nat, i: nat, n: nat, v: int,
          x: nat)
    requires i < n && n <= b && b + i <= e <= |f| && |f1| == |f2| == |f3| == |f|
    requires f1 == Overwrite(f, b - n, f[b..b + i])
    requires f2 == Overwrite(f1, b - n + i, Repeat(n - i, v))
    requires f3 == Overwrite(f2, b, Repeat(i, v))
    requires b - n <= x < e
    ensures f3[x] == if x < b - n + i then f[x + n] else if x < b + i then v else f[x]
  {
    hide Overwrite, Repeat;
    OverwrittenAt(f2, b, Repeat(i, v), x);
    OverwrittenAt(f1, b - n + i, Repeat(n - i, v), x);
    OverwrittenAt(f, b - n, f[b..b + i], x);
    RepeatAt(i, v);
    RepeatAt(n - i, v);
  }

  lemma FilledFrontShort(f: seq<int>, f1: seq<int>, f2: seq<int>, f3: seq<int>, b: nat, e: nat, c: seq<int>, i: nat,
          n: nat, v: int)
    requires b <= e <= |f| && 1 <= i < |c| && f[b..e] == c && i < n && n <= b
    requires |f1| == |f2| == |f3| == |f|
    requires f1 == Overwrite(f, b - n, f[b..b + i])
    requires f2 == Overwrite(f1, b - n + i, Repeat(n - i, v))
    requires f3 == Overwrite(f2, b, Repeat(i, v))
    ensures f3[b - n..e] == c[..i] + Repeat(n, v) + c[i..]
  {
    var r := c[..i] + Repeat(n, v) + c[i..];
    hide Overwrite, Repeat;
    SliceAt(f, b, e, c);
    Inserted(c, i, n, v);
    forall x | b - n <= x < e
      ensures f3[x] == r[x - (b - n)]
    {
      FrontShortAt(f, f1, f2, f3, b, e, i, n, v, x);
    }
  }

  lemma BackLongAt(f: seq<int>, f1: seq<int>, f2: seq<int>, f3: seq<int>, b: nat, e: nat, i: nat, n: nat, v: int,
          x: nat)
    requires b + i + n < e && e + n < |f| && |f1| == |f2| == |f3| == |f|
    requires f1 == Overwrite(f, e, f[e - n..e])
    requires f2 == Overwrite(f1, e - (e - n - (b + i)), f1[b + i..e - n])
    requires f3 == Overwrite(f2, b + i, Repeat(n, v))
    requires b <= x < e + n
    ensures f3[x] == if x < b + i then f[x] else if x < b + i + n then v else f[x - n]
  {
    hide Overwrite, Repeat;
    OverwrittenAt(f2, b + i, Repeat(n, v), x);
    OverwrittenAt(f1, b + i + n, f1[b + i..e - n], x);
    OverwrittenAt(f, e, f[e - n..e], x);
    if b + i + n <= x < e {
      OverwrittenAt(f, e, f[e - n..e], x - n);
    }
    RepeatAt(n, v);
  }

  lemma FilledBackLong(f: seq<int>, f1: seq<int>, f2: seq<int>, f3: seq<int>, b: nat, e: nat, c: seq<int>, i: nat,
          n: nat, v: int)
    requires b <= e <= |f| && 1 <= i < |c| && f[b..e] == c && n < |c| - i && e + n < |f|
    requires |f1| == |f2| == |f3| == |f|
    requires f1 == Overwrite(f, e, f[e - n..e])
    requires f2 == Overwrite(f1, e - (e - n - (b + i)), f1[b + i..e - n])
    requires f3 == Overwrite(f2, b + i, Repeat(n, v))
    ensures f3[b..e + n] == c[..i] + Repeat(n, v) + c[i..]
  {
    var r := c[..i] + Repeat(n, v) + c[i..];
    hide Overwrite, Repeat;
    SliceAt(f, b, e, c);
    Inserted(c, i, n, v);
    forall x | b <= x < e + n
      ensures f3[x] == r[x - b]
    {
      BackLongAt(f, f1, f2, f3, b, e, i, n, v, x);
    }
  }

  lemma BackShortAt(f: seq<int>, f1: seq<int>, f2: seq<int>, f3: seq<int>, b: nat, e: nat, i: nat, n: nat, v: int,
          x: nat)
    requires b + i < e <= b + i + n && e + n < |f| && |f1| == |f2| == |f3| == |f|
    requires f1 == Overwrite(f, e, Repeat(b + i + n - e, v))
    requires f2 == Overwrite(f1, b + i + n, f1[b + i..e])
    requires f3 == Overwrite(f2, b + i, Repeat(e - (b + i), v))
    requires b <= x < e + n
    ensures f3[x] == if x < b + i then f[x] else if x < b + i + n then v else f[x - n]
  {
    hide Overwrite, Repeat;
    OverwrittenAt(f2, b + i, Repeat(e - (b + i), v), x);
    OverwrittenAt(f1, b + i + n, f1[b + i..e], x);
    OverwrittenAt(f, e, Repeat(b + i + n - e, v), x);
    if b + i + n <= x {
      OverwrittenAt(f, e, Repeat(b + i + n - e, v), x - n);
    }
    RepeatAt(b + i + n - e, v);
    RepeatAt(e - (b + i), v);
  }

  lemma FilledBackShort(f: seq<int>, f1: seq<int>, f2: seq<int>, f3: seq<int>, b: nat, e: nat, c: seq<int>, i: nat,
          n: nat, v: int)
    requires b <= e <= |f| && 1 <= i < |c| && f[b..e] == c && |c| - i <= n && e + n < |f|
    requires |f1| == |f2| == |f3| == |f|
    requires f1 == Overwrite(f, e, Repeat(b + i + n - e, v))
    requires f2 == Overwrite(f1, b + i + n, f1[b + i..e])
    requires f3 == Overwrite(f2, b + i, Repeat(e - (b + i), v))
    ensures f3[b..e + n] == c[..i] + Repeat(n, v) + c[i..]
  {
    var r := c[..i] + Repeat(n, v) + c[i..];
    hide Overwrite, Repeat;
    SliceAt(f, b, e, c);
    Inserted(c, i, n, v);
    forall x | b <= x < e + n
      ensures f3[x] == r[x - b]
    {
      BackShortAt(f, f1, f2, f3, b, e, i, n, v, x);
    }
  }
}
