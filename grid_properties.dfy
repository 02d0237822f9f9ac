/**
 * What the handlers of `App` do to the grid, stated over the functions of
 * module Grid: the effect of each accepted operation, that a refused one
 * changes nothing, and which invariants each operation keeps.
 */
module GridProperties {
  import opened Geometry
  import opened Grid

  // ---------------------------------------------------------------------
  // Keys

  /** Two components of one type created at different clock readings get different keys. */
  lemma {:induction false} InstanceKeysDiffer(componentId: string, a: string, b: string)
    requires a != b
    ensures InstanceKey(componentId, a) != InstanceKey(componentId, b)
  {
    var n := |componentId| + 1;
    assert InstanceKey(componentId, a)[n..] == a;
    assert InstanceKey(componentId, b)[n..] == b;
  }

  // ---------------------------------------------------------------------
  // Placing a component

  /**
   * The clicked cell holds the new key, the key is registered with its
   * type, the cell keeps its span (a new 1x1 span when it had none), and no
   * other cell, span or registered component changes.
   */
  lemma SelectPlaces(s: Layout, cell: nat, componentId: string, stamp: string)
    ensures var t, key := AfterSelect(s, cell, componentId, stamp), InstanceKey(componentId, stamp);
      && KeyAt(t.cells, cell) == Some(key)
      && key in t.instances && t.instances[key] == Instance(componentId)
      && cell in t.spans && SpanAt(t.spans, cell) == SpanAt(s.spans, cell)
      && (cell !in s.spans ==> t.spans[cell] == Span(1, 1))
      && t.cells - {cell} == s.cells - {cell}
      && t.spans - {cell} == s.spans - {cell}
      && t.instances - {key} == s.instances - {key}
      && t.rows == s.rows && t.cols == s.cols
  {
  }

  /** With a fresh key, placing keeps every stored key registered and unshared. */
  lemma SelectKeepsConsistent(s: Layout, cell: nat, componentId: string, stamp: string)
    requires Consistent(s)
    requires InstanceKey(componentId, stamp) !in s.instances
    ensures Consistent(AfterSelect(s, cell, componentId, stamp))
  {
  }

  /**
   * Placing over a cell that already holds a component replaces its key and
   * leaves the old component registered with no cell holding it.
   */
  lemma SelectOverOccupiedOrphans(s: Layout, cell: nat, componentId: string, stamp: string)
    requires Consistent(s)
    requires Occupied(s.cells, cell)
    requires InstanceKey(componentId, stamp) !in s.instances
    ensures var t, old_key := AfterSelect(s, cell, componentId, stamp), s.cells[cell].value;
      && old_key in t.instances
      && forall i :: KeyAt(t.cells, i) != Some(old_key)
  {
    var t, oldKey := AfterSelect(s, cell, componentId, stamp), s.cells[cell].value;
    forall i ensures KeyAt(t.cells, i) != Some(oldKey) {
      if i != cell && i in s.cells {
        assert s.cells[i] != s.cells[cell];
      }
    }
  }

  /**
   * Placing in a cell whose span (or 1x1) fits the grid keeps every
   * component inside the grid; if that rectangle meets no other component,
   * no two components overlap afterwards either. The handler itself checks
   * neither: it relies on the grid offering only free cells.
   */
  lemma SelectKeepsLayout(s: Layout, cell: nat, componentId: string, stamp: string)
    requires InBounds(s) && NoOverlap(s)
    requires Fits(s, cell)
    requires forall i | Occupied(s.cells, i) && i != cell :: Disjoint(RectOf(s, cell), RectOf(s, i))
    ensures InBounds(AfterSelect(s, cell, componentId, stamp))
    ensures NoOverlap(AfterSelect(s, cell, componentId, stamp))
  {
    var t := AfterSelect(s, cell, componentId, stamp);
    assert forall i :: RectOf(t, i) == RectOf(s, i);
    assert forall i | i != cell :: Occupied(t.cells, i) == Occupied(s.cells, i);
  }

  // ---------------------------------------------------------------------
  // Deleting a component

  /**
   * The cell loses its entry and its span, the component it held is
   * unregistered, and nothing else changes.
   */
  lemma DeleteRemoves(s: Layout, cell: nat)
    ensures var t := AfterDelete(s, cell);
      && cell !in t.cells && cell !in t.spans
      && (Occupied(s.cells, cell) ==> t.instances == s.instances - {s.cells[cell].value})
      && (!Occupied(s.cells, cell) ==> t.instances == s.instances)
      && t.cells == s.cells - {cell} && t.spans == s.spans - {cell}
      && t.rows == s.rows && t.cols == s.cols
  {
  }

  /** Deleting a cell that has neither an entry nor a span changes nothing. */
  lemma DeleteEmptyIsNoop(s: Layout, cell: nat)
    requires cell !in s.cells && cell !in s.spans
    ensures AfterDelete(s, cell) == s
  {
  }

  /** Deleting twice gives the state deleting once gives. */
  lemma DeleteIdempotent(s: Layout, cell: nat)
    ensures AfterDelete(AfterDelete(s, cell), cell) == AfterDelete(s, cell)
  {
    DeleteEmptyIsNoop(AfterDelete(s, cell), cell);
  }

  /** Deleting keeps the registry consistent: no remaining cell loses its component's type. */
  lemma DeleteKeepsConsistent(s: Layout, cell: nat)
    requires Consistent(s)
    ensures Consistent(AfterDelete(s, cell))
  {
    var t := AfterDelete(s, cell);
    forall i | i in t.cells && t.cells[i].Some?
      ensures t.cells[i].value in t.instances
    {
      assert i in s.cells && i != cell;
      if Occupied(s.cells, cell) {
        assert s.cells[i] != s.cells[cell];
      }
    }
  }

  /** Deleting keeps every component inside the grid and apart. */
  lemma DeleteKeepsLayout(s: Layout, cell: nat)
    requires InBounds(s) && NoOverlap(s)
    ensures InBounds(AfterDelete(s, cell)) && NoOverlap(AfterDelete(s, cell))
  {
    var t := AfterDelete(s, cell);
    assert forall i | i != cell :: RectOf(t, i) == RectOf(s, i);
    forall i | Occupied(t.cells, i) ensures Fits(t, i) {
      assert Occupied(s.cells, i) && Fits(s, i);
    }
  }

  // ---------------------------------------------------------------------
  // Resizing

  /**
   * With a new cell different from the old one, the cell's value moves to
   * the new cell, the new cell gets the given span, the old cell loses both,
   * and nothing else changes.
   */
  lemma ResizeRelocates(s: Layout, cell: nat, colSpan: int, rowSpan: int, newCell: nat)
    requires newCell != cell
    ensures var t := AfterResize(s, cell, colSpan, rowSpan, Some(newCell));
      && newCell in t.cells && t.cells[newCell] == KeyAt(s.cells, cell)
      && newCell in t.spans && t.spans[newCell] == Span(colSpan, rowSpan)
      && cell !in t.cells && cell !in t.spans
      && t.cells - {cell, newCell} == s.cells - {cell, newCell}
      && t.spans - {cell, newCell} == s.spans - {cell, newCell}
      && t.instances == s.instances && t.rows == s.rows && t.cols == s.cols
  {
  }

  /** With no new cell, or the same cell, only the cell's span changes. */
  lemma ResizeInPlace(s: Layout, cell: nat, colSpan: int, rowSpan: int, newCell: Option<nat>)
    requires newCell == None || newCell == Some(cell)
    ensures var t := AfterResize(s, cell, colSpan, rowSpan, newCell);
      && t.cells == s.cells
      && cell in t.spans && t.spans[cell] == Span(colSpan, rowSpan)
      && t.spans - {cell} == s.spans - {cell}
      && t.instances == s.instances && t.rows == s.rows && t.cols == s.cols
  {
  }

  /** Resizing keeps the registry consistent. */
  lemma ResizeKeepsConsistent(s: Layout, cell: nat, colSpan: int, rowSpan: int, newCell: Option<nat>)
    requires Consistent(s)
    ensures Consistent(AfterResize(s, cell, colSpan, rowSpan, newCell))
  {
    var t := AfterResize(s, cell, colSpan, rowSpan, newCell);
    if newCell.Some? && newCell.value != cell {
      var n := newCell.value;
      forall i, j | i in t.cells && j in t.cells && i != j && t.cells[i].Some?
        ensures t.cells[i] != t.cells[j]
      {
        var i0 := if i == n then cell else i;
        var j0 := if j == n then cell else j;
        assert t.cells[i] == KeyAt(s.cells, i0) && t.cells[j] == KeyAt(s.cells, j0);
      }
    }
  }

  // ---------------------------------------------------------------------
  // Moving

  /**
   * A move is refused when the target cell holds a component (so also when
   * a component is dropped on its own cell), when the moved span would
   * cross the right or bottom edge, or when another component's cell lies
   * in the target area.
   */
  lemma MoveRefusals(s: Layout, from: nat, to: nat)
    ensures Occupied(s.cells, to) ==> !MoveAccepted(s, from, to)
    ensures Occupied(s.cells, from) ==> !MoveAccepted(s, from, from)
    ensures Col(to, s.cols) + SpanAt(s.spans, from).colSpan > s.cols ==> !MoveAccepted(s, from, to)
    ensures Row(to, s.cols) + SpanAt(s.spans, from).rowSpan > s.rows ==> !MoveAccepted(s, from, to)
    ensures (exists row: nat, col: nat ::
               && Row(to, s.cols) <= row < Row(to, s.cols) + SpanAt(s.spans, from).rowSpan
               && Col(to, s.cols) <= col < Col(to, s.cols) + SpanAt(s.spans, from).colSpan
               && Blocked(s.cells, s.cols, from, row, col))
            ==> !MoveAccepted(s, from, to)
  {
  }

  /**
   * An accepted move puts the source cell's value and span at the target,
   * removes the source cell's entry and span, and changes nothing else:
   * no other cell, no other span, no registered component.
   */
  lemma MoveRelocates(s: Layout, from: nat, to: nat)
    requires MoveAccepted(s, from, to)
    ensures var t := AfterMove(s, from, to);
      && from !in t.cells && from !in t.spans
      && (from != to ==> to in t.cells && t.cells[to] == KeyAt(s.cells, from) && to in t.spans && t.spans[to] == SpanAt(s.spans, from))
      && t.cells - {from, to} == s.cells - {from, to}
      && t.spans - {from, to} == s.spans - {from, to}
      && t.instances == s.instances && t.rows == s.rows && t.cols == s.cols
  {
  }

  /** An accepted move keeps every component inside the grid. */
  lemma MoveKeepsInBounds(s: Layout, from: nat, to: nat)
    requires InBounds(s)
    requires MoveAccepted(s, from, to)
    ensures InBounds(AfterMove(s, from, to))
  {
    var t := AfterMove(s, from, to);
    forall i | Occupied(t.cells, i) ensures Fits(t, i) {
      if i == to {
        assert Occupied(s.cells, from) && from != to;
        assert Fits(s, from);
        var span := SpanAt(s.spans, from);
        assert SpanAt(t.spans, to) == span;
        assert Col(to, s.cols) + span.colSpan <= s.cols && Row(to, s.cols) + span.rowSpan <= s.rows;
        assert RectOf(t, to) == Rect(Row(to, s.cols), Col(to, s.cols), span.rowSpan, span.colSpan);
      } else {
        assert Occupied(s.cells, i) && Fits(s, i);
        assert RectOf(t, i) == RectOf(s, i);
      }
    }
  }

  /** A move keeps the registry consistent. */
  lemma MoveKeepsConsistent(s: Layout, from: nat, to: nat)
    requires Consistent(s)
    ensures Consistent(AfterMove(s, from, to))
  {
    var t := AfterMove(s, from, to);
    forall i, j | i in t.cells && j in t.cells && i != j && t.cells[i].Some?
      ensures t.cells[i] != t.cells[j]
    {
      var i0 := if i == to then from else i;
      var j0 := if j == to then from else j;
      assert t.cells[i] == KeyAt(s.cells, i0) && t.cells[j] == KeyAt(s.cells, j0);
    }
  }

  // ---------------------------------------------------------------------
  // Changing the number of rows

  /** Accepting a row count accepts every larger one. */
  lemma CanReduceRowsMonotone(s: Layout, n: int, m: int)
    requires n <= m
    requires CanReduceRows(s, n)
    ensures CanReduceRows(s, m)
  {
  }

  /**
   * For a grid whose components lie inside it, the row test accepts a row
   * count exactly when every component ends at or above that row.
   */
  lemma {:induction false} CanReduceRowsIff(s: Layout, n: int)
    requires InBounds(s)
    ensures CanReduceRows(s, n) <==>
      forall i | Occupied(s.cells, i) :: Row(i, s.cols) + SpanAt(s.spans, i).rowSpan <= n
  {
    if CanReduceRows(s, n) {
      forall i | Occupied(s.cells, i) ensures Row(i, s.cols) + SpanAt(s.spans, i).rowSpan <= n {
        assert Fits(s, i);
        if n < s.rows {
          assert RowFits(s, i, n);
        }
      }
    } else {
      var i :| i in s.cells && Occupied(s.cells, i) && !RowFits(s, i, n);
      assert Fits(s, i);
    }
  }

  /** A refused row count changes nothing. */
  lemma RowsChangeRefused(s: Layout, n: int)
    requires !CanReduceRows(s, n)
    ensures AfterRowsChange(s, n) == s
  {
  }

  /**
   * An accepted row count is set; the cells that stay are exactly those
   * whose index is below `n * cols`, that is, those in the first `n` rows;
   * their values are unchanged, only their spans stay, and the registry
   * and the column count are untouched.
   */
  lemma {:induction false} RowsChangeRetains(s: Layout, n: int)
    requires CanReduceRows(s, n)
    ensures var t := AfterRowsChange(s, n);
      && t.rows == n && t.cols == s.cols && t.instances == s.instances
      && (forall i :: i in t.cells <==> i in s.cells && i < n * s.cols)
      && (forall i :: i in t.cells <==> i in s.cells && Row(i, s.cols) < n)
      && (forall i | i in t.cells :: t.cells[i] == s.cells[i])
      && (forall i :: i in t.spans <==> i in t.cells && i in s.spans)
      && (forall i | i in t.spans :: t.spans[i] == s.spans[i])
  {
    forall i: nat ensures i < n * s.cols <==> Row(i, s.cols) < n {
      BelowRowsIffRowBelow(i, s.cols, n);
    }
  }

  /**
   * In a grid whose components lie inside it, an accepted row count keeps
   * every component in its cell with its span.
   */
  lemma {:induction false} RowsChangeKeepsComponents(s: Layout, n: int)
    requires InBounds(s)
    requires CanReduceRows(s, n)
    ensures var t := AfterRowsChange(s, n);
      forall i | Occupied(s.cells, i) :: KeyAt(t.cells, i) == KeyAt(s.cells, i) && SpanAt(t.spans, i) == SpanAt(s.spans, i)
  {
    var t := AfterRowsChange(s, n);
    forall i | Occupied(s.cells, i)
      ensures KeyAt(t.cells, i) == KeyAt(s.cells, i) && SpanAt(t.spans, i) == SpanAt(s.spans, i)
    {
      assert Fits(s, i);
      if n < s.rows {
        assert RowFits(s, i, n);
      }
      BelowRowsIffRowBelow(i, s.cols, n);
    }
  }

  /** An accepted row count keeps components inside the grid, apart, and registered. */
  lemma {:induction false} RowsChangeKeepsLayout(s: Layout, n: int)
    requires InBounds(s) && NoOverlap(s) && Consistent(s)
    ensures var t := AfterRowsChange(s, n);
      InBounds(t) && NoOverlap(t) && Consistent(t)
  {
    var t := AfterRowsChange(s, n);
    if CanReduceRows(s, n) {
      CanReduceRowsIff(s, n);
      assert forall i | Occupied(t.cells, i) :: Occupied(s.cells, i) && RectOf(t, i) == RectOf(s, i);
      forall i | Occupied(t.cells, i) ensures Fits(t, i) {
        assert Fits(s, i);
      }
    }
  }

  // ---------------------------------------------------------------------
  // Changing the number of columns

  /** Accepting a column count accepts every larger one. */
  lemma CanReduceColsMonotone(s: Layout, n: int, m: int)
    requires n <= m
    requires CanReduceCols(s, n)
    ensures CanReduceCols(s, m)
  {
  }

  /**
   * For a grid whose components lie inside it, the column test accepts a
   * column count exactly when every component ends at or left of that column.
   */
  lemma {:induction false} CanReduceColsIff(s: Layout, n: int)
    requires InBounds(s)
    ensures CanReduceCols(s, n) <==>
      forall i | Occupied(s.cells, i) :: Col(i, s.cols) + SpanAt(s.spans, i).colSpan <= n
  {
    if CanReduceCols(s, n) {
      forall i | Occupied(s.cells, i) ensures Col(i, s.cols) + SpanAt(s.spans, i).colSpan <= n {
        assert Fits(s, i);
        if n < s.cols {
          assert ColFits(s, i, n);
        }
      }
    } else {
      var i :| i in s.cells && Occupied(s.cells, i) && !ColFits(s, i, n);
      assert Fits(s, i);
    }
  }

  /** A refused column count changes nothing. */
  lemma ColsChangeRefused(s: Layout, n: Positive)
    requires !CanReduceCols(s, n)
    ensures AfterColsChange(s, n) == s
  {
  }

  /**
   * An accepted column count is set; the cells that stay are exactly those
   * whose index is below `rows * n`, under their old index and with their
   * old value, only their spans stay, and the registry and the row count are
   * untouched.
   */
  lemma ColsChangeRetains(s: Layout, n: Positive)
    requires CanReduceCols(s, n)
    ensures var t := AfterColsChange(s, n);
      && t.cols == n && t.rows == s.rows && t.instances == s.instances
      && (forall i :: i in t.cells <==> i in s.cells && i < s.rows * n)
      && (forall i | i in t.cells :: t.cells[i] == s.cells[i])
      && (forall i :: i in t.spans <==> i in t.cells && i in s.spans)
      && (forall i | i in t.spans :: t.spans[i] == s.spans[i])
  {
  }

  /** A column change keeps the registry consistent. */
  lemma ColsChangeKeepsConsistent(s: Layout, n: Positive)
    requires Consistent(s)
    ensures Consistent(AfterColsChange(s, n))
  {
  }

  // ---------------------------------------------------------------------
  // Every placed component has a span entry

  /** Placing a component gives its cell a span when it had none. */
  lemma SelectKeepsSpans(s: Layout, cell: nat, componentId: string, stamp: string)
    requires SpanOfEveryComponent(s)
    ensures SpanOfEveryComponent(AfterSelect(s, cell, componentId, stamp))
  {
    var t := AfterSelect(s, cell, componentId, stamp);
    forall i | Occupied(t.cells, i) ensures i in t.spans {
      if i != cell {
        assert Occupied(s.cells, i);
      }
    }
  }

  /** Deleting removes a cell's entry together with its span. */
  lemma DeleteKeepsSpans(s: Layout, cell: nat)
    requires SpanOfEveryComponent(s)
    ensures SpanOfEveryComponent(AfterDelete(s, cell))
  {
    var t := AfterDelete(s, cell);
    forall i | Occupied(t.cells, i) ensures i in t.spans {
      assert Occupied(s.cells, i);
    }
  }

  /** A resize writes a span wherever it writes the component. */
  lemma ResizeKeepsSpans(s: Layout, cell: nat, colSpan: int, rowSpan: int, newCell: Option<nat>)
    requires SpanOfEveryComponent(s)
    ensures SpanOfEveryComponent(AfterResize(s, cell, colSpan, rowSpan, newCell))
  {
    var t := AfterResize(s, cell, colSpan, rowSpan, newCell);
    forall i | Occupied(t.cells, i) ensures i in t.spans {
      if newCell.None? || newCell.value == cell || i != newCell.value {
        assert Occupied(s.cells, i);
      }
    }
  }

  /** A move writes the moved span at the target together with the component. */
  lemma MoveKeepsSpans(s: Layout, from: nat, to: nat)
    requires SpanOfEveryComponent(s)
    ensures SpanOfEveryComponent(AfterMove(s, from, to))
  {
    var t := AfterMove(s, from, to);
    forall i | Occupied(t.cells, i) ensures i in t.spans {
      if i != to {
        assert Occupied(s.cells, i);
      }
    }
  }

  /** A row change keeps the span of every entry it keeps. */
  lemma RowsChangeKeepsSpans(s: Layout, n: int)
    requires SpanOfEveryComponent(s)
    ensures SpanOfEveryComponent(AfterRowsChange(s, n))
  {
    var t := AfterRowsChange(s, n);
    forall i | Occupied(t.cells, i) ensures i in t.spans {
      assert Occupied(s.cells, i);
    }
  }

  /** A column change keeps the span of every entry it keeps. */
  lemma ColsChangeKeepsSpans(s: Layout, n: Positive)
    requires SpanOfEveryComponent(s)
    ensures SpanOfEveryComponent(AfterColsChange(s, n))
  {
    var t := AfterColsChange(s, n);
    forall i | Occupied(t.cells, i) ensures i in t.spans {
      assert Occupied(s.cells, i);
    }
  }

  // ---------------------------------------------------------------------
  // The initial state

  lemma InitialIsWellFormed()
    ensures Initial.rows == 2 && Initial.cols == 5
    ensures Consistent(Initial) && InBounds(Initial) && NoOverlap(Initial) && SpanOfEveryComponent(Initial)
  {
  }
}
