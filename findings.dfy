/**
 * Two places where the handlers of `App` do not keep the layout they are
 * meant to keep, each shown on a concrete grid, and for each a corrected
 * definition with the intended property proved of it. The class App keeps
 * the handlers' actual behaviour; these corrected definitions stand beside
 * it.
 */
module Findings {
  import opened Geometry
  import opened Grid
  import opened GridProperties

  // ---------------------------------------------------------------------
  // 1. A column change keeps linear indices

  const NotesKey: Key := "notes-1"
  const TimerKey: Key := "timer-2"

  /** Two rows of five columns, one 1x1 component at cell 6 (row 1, column 1). */
  const NarrowingGrid := Layout(2, 5, map[6 := Some(NotesKey)], map[6 := Span(1, 1)], map[NotesKey := Instance("notes")])

  /**
   * Narrowing that grid to three columns passes the column test (the
   * component ends at column 2), yet the cleanup keeps only indices below
   * 2 * 3 = 6, so the component's cell is dropped and its instance is left
   * registered with no cell holding it.
   */
  lemma ColsChangeDropsAcceptedComponent()
    ensures InBounds(NarrowingGrid) && Consistent(NarrowingGrid)
    ensures CanReduceCols(NarrowingGrid, 3)
    ensures var t := AfterColsChange(NarrowingGrid, 3);
      && NotesKey in t.instances
      && forall i :: KeyAt(t.cells, i) != Some(NotesKey)
  {
    var s := NarrowingGrid;
    assert Row(6, 5) == 1 && Col(6, 5) == 1;
    assert forall i | Occupied(s.cells, i) :: i == 6;
    var t := AfterColsChange(s, 3);
    assert t.cells == map[];
  }

  /** Two rows of five columns, one component at cell 5 spanning the whole second row. */
  const WideningGrid := Layout(2, 5, map[5 := Some(TimerKey)], map[5 := Span(5, 1)], map[TimerKey := Instance("timer")])

  /**
   * Widening that grid to six columns keeps index 5, which now reads as
   * row 0, column 5: the five-column span then runs past the right edge.
   */
  lemma ColsChangeMovesComponentOutOfGrid()
    ensures InBounds(WideningGrid) && CanReduceCols(WideningGrid, 6)
    ensures !InBounds(AfterColsChange(WideningGrid, 6))
  {
    var s := WideningGrid;
    assert Row(5, 5) == 1 && Col(5, 5) == 0;
    assert forall i | Occupied(s.cells, i) :: i == 5;
    var t := AfterColsChange(s, 6);
    assert Row(5, 6) == 0 && Col(5, 6) == 5;
    assert Occupied(t.cells, 5) && !Fits(t, 5);
  }

  /** The index that the cell `i` of a grid with `cols` columns has in a grid with `n` columns. */
  function Renumbered(cols: Positive, n: Positive, i: nat): nat
  {
    CellIndex(Row(i, cols), Col(i, cols), n)
  }

  /** The cell `i` survives a change to `n` columns: its row and column are both still in the grid. */
  predicate Survives(s: Layout, n: Positive, i: nat)
  {
    Row(i, s.cols) < s.rows && Col(i, s.cols) < n
  }

  /** The indices the surviving entries of `cells` take in the grid with `n` columns. */
  function SurvivingIndices(s: Layout, n: Positive): set<nat>
  {
    set i | i in s.cells && Survives(s, n, i) :: Renumbered(s.cols, n, i)
  }

  /** Renumbering back from `n` columns recovers a surviving cell. */
  lemma {:induction false} RenumberedBack(s: Layout, n: Positive, i: nat)
    requires Survives(s, n, i)
    ensures Renumbered(n, s.cols, Renumbered(s.cols, n, i)) == i
    ensures Row(Renumbered(s.cols, n, i), n) == Row(i, s.cols)
    ensures Col(Renumbered(s.cols, n, i), n) == Col(i, s.cols)
  {
    RowColOfIndex(Row(i, s.cols), Col(i, s.cols), n);
    IndexDecomposes(i, s.cols);
  }

  /**
   * A column change as its test intends it: every cell that still fits
   * keeps its row and column and gets the index that position has in the
   * new grid.
   */
  function AfterColsChangeRenumbered(s: Layout, n: Positive): Layout
  {
    if CanReduceCols(s, n) then
      var keep := SurvivingIndices(s, n);
      s.(cols := n,
         cells := map j | j in keep && Renumbered(n, s.cols, j) in s.cells :: s.cells[Renumbered(n, s.cols, j)],
         spans := map j | j in keep && Renumbered(n, s.cols, j) in s.spans :: s.spans[Renumbered(n, s.cols, j)])
    else
      s
  }

  /** Each surviving entry lands at its renumbered index with its value and span. */
  lemma {:induction false} RenumberedEntries(s: Layout, n: Positive, i: nat)
    requires CanReduceCols(s, n)
    requires i in s.cells && Survives(s, n, i)
    ensures var t, j := AfterColsChangeRenumbered(s, n), Renumbered(s.cols, n, i);
      && j in t.cells && t.cells[j] == s.cells[i] && SpanAt(t.spans, j) == SpanAt(s.spans, i)
  {
    RenumberedBack(s, n, i);
    assert Renumbered(s.cols, n, i) in SurvivingIndices(s, n);
  }

  /** Every entry after the renumbered change comes from a surviving entry before it. */
  lemma {:induction false} RenumberedOrigin(s: Layout, n: Positive, j: nat)
    requires CanReduceCols(s, n)
    requires j in AfterColsChangeRenumbered(s, n).cells
    ensures var i := Renumbered(n, s.cols, j);
      && i in s.cells && Survives(s, n, i) && Renumbered(s.cols, n, i) == j
  {
    var i :| i in s.cells && Survives(s, n, i) && Renumbered(s.cols, n, i) == j;
    RenumberedBack(s, n, i);
  }

  /**
   * In a grid whose components lie inside it, an accepted column change
   * keeps every component, at the same row and column, with its key and
   * span.
   */
  lemma {:induction false} RenumberedColsChangeKeepsComponents(s: Layout, n: Positive)
    requires InBounds(s)
    requires CanReduceCols(s, n)
    ensures var t := AfterColsChangeRenumbered(s, n);
      forall i | Occupied(s.cells, i) ::
        var j := Renumbered(s.cols, n, i);
        && KeyAt(t.cells, j) == KeyAt(s.cells, i) && SpanAt(t.spans, j) == SpanAt(s.spans, i)
        && Row(j, n) == Row(i, s.cols) && Col(j, n) == Col(i, s.cols)
  {
    CanReduceColsIff(s, n);
    forall i | Occupied(s.cells, i)
      ensures var t, j := AfterColsChangeRenumbered(s, n), Renumbered(s.cols, n, i);
        && KeyAt(t.cells, j) == KeyAt(s.cells, i) && SpanAt(t.spans, j) == SpanAt(s.spans, i)
        && Row(j, n) == Row(i, s.cols) && Col(j, n) == Col(i, s.cols)
    {
      assert Fits(s, i);
      RenumberedBack(s, n, i);
      RenumberedEntries(s, n, i);
    }
  }

  /** The renumbered column change keeps components inside the grid, apart, and registered. */
  lemma {:induction false} RenumberedColsChangeKeepsLayout(s: Layout, n: Positive)
    requires InBounds(s) && NoOverlap(s) && Consistent(s)
    ensures var t := AfterColsChangeRenumbered(s, n);
      InBounds(t) && NoOverlap(t) && Consistent(t)
  {
    var t := AfterColsChangeRenumbered(s, n);
    if CanReduceCols(s, n) {
      CanReduceColsIff(s, n);
      forall j | j in t.cells
        ensures var i := Renumbered(n, s.cols, j);
          && t.cells[j] == s.cells[i] && RectOf(t, j) == RectOf(s, i)
      {
        RenumberedOrigin(s, n, j);
        var i := Renumbered(n, s.cols, j);
        RenumberedBack(s, n, i);
        RenumberedEntries(s, n, i);
      }
      forall j | Occupied(t.cells, j) ensures Fits(t, j) {
        assert Occupied(s.cells, Renumbered(n, s.cols, j));
        assert Fits(s, Renumbered(n, s.cols, j));
      }
      forall j, k | Occupied(t.cells, j) && Occupied(t.cells, k) && j != k
        ensures Disjoint(RectOf(t, j), RectOf(t, k))
      {
        RenumberedOrigin(s, n, j);
        RenumberedOrigin(s, n, k);
      }
      forall j, k | j in t.cells && k in t.cells && j != k && t.cells[j].Some?
        ensures t.cells[j] != t.cells[k]
      {
        RenumberedOrigin(s, n, j);
        RenumberedOrigin(s, n, k);
      }
    }
  }

  /** On the grid of the first example the renumbered change keeps the component, now at index 4. */
  lemma RenumberedColsChangeKeepsExample()
    ensures KeyAt(AfterColsChangeRenumbered(NarrowingGrid, 3).cells, 4) == Some(NotesKey)
  {
    assert Row(6, 5) == 1 && Col(6, 5) == 1;
    assert forall i | Occupied(NarrowingGrid.cells, i) :: i == 6;
    RenumberedColsChangeKeepsComponents(NarrowingGrid, 3);
  }

  // ---------------------------------------------------------------------
  // 2. A move sees only the cells where components start

  /**
   * Two rows of five columns: one component at cell 1 two rows high
   * (covering cells 1 and 6), one at cell 3 two columns wide (covering
   * cells 3 and 4).
   */
  const SpannedGrid := Layout(2, 5,
    map[1 := Some(NotesKey), 3 := Some(TimerKey)],
    map[1 := Span(1, 2), 3 := Span(2, 1)],
    map[NotesKey := Instance("notes"), TimerKey := Instance("timer")])

  /**
   * Dragging the wide component to cell 5 is accepted: cells 5 and 6 hold
   * no key. But cell 6 is covered by the tall component, so afterwards the
   * two overlap.
   */
  lemma MoveOntoSpannedCell()
    ensures InBounds(SpannedGrid) && NoOverlap(SpannedGrid)
    ensures MoveAccepted(SpannedGrid, 3, 5)
    ensures !NoOverlap(AfterMove(SpannedGrid, 3, 5))
  {
    var s := SpannedGrid;
    assert forall i | Occupied(s.cells, i) :: i == 1 || i == 3;
    assert RectOf(s, 1) == Rect(0, 1, 2, 1) && RectOf(s, 3) == Rect(0, 3, 1, 2);
    assert Row(5, 5) == 1 && Col(5, 5) == 0;
    forall row: nat, col: nat | 1 <= row < 2 && 0 <= col < 2 ensures !Blocked(s.cells, 5, 3, row, col) {
      assert CellIndex(row, col, 5) == 5 + col;
    }
    var t := AfterMove(s, 3, 5);
    assert Occupied(t.cells, 1) && Occupied(t.cells, 5);
    assert RectOf(t, 1) == Rect(0, 1, 2, 1) && RectOf(t, 5) == Rect(1, 0, 1, 2);
  }

  /** The rectangle the component at `from` would cover with its top-left corner at `to`. */
  function TargetRect(s: Layout, from: nat, to: nat): Rect
  {
    var span := SpanAt(s.spans, from);
    Rect(Row(to, s.cols), Col(to, s.cols), span.rowSpan, span.colSpan)
  }

  /**
   * A move as its comment intends it: the target cell is free, the moved
   * rectangle stays in the grid, and it meets the rectangle of no other
   * component, not only their first cells.
   */
  predicate CoveringMoveAccepted(s: Layout, from: nat, to: nat)
  {
    var target := TargetRect(s, from, to);
    && !Occupied(s.cells, to)
    && target.left + target.width <= s.cols
    && target.top + target.height <= s.rows
    && forall i | i in s.cells && Occupied(s.cells, i) && i != from :: Disjoint(target, RectOf(s, i))
  }

  /** In a grid whose components lie inside it, the corrected test accepts only moves the handler accepts. */
  lemma {:induction false} CoveringMoveIsStricter(s: Layout, from: nat, to: nat)
    requires InBounds(s)
    requires CoveringMoveAccepted(s, from, to)
    ensures MoveAccepted(s, from, to)
  {
    var target := TargetRect(s, from, to);
    var span := SpanAt(s.spans, from);
    forall row: nat, col: nat | target.top <= row < target.top + span.rowSpan && target.left <= col < target.left + span.colSpan
      ensures !Blocked(s.cells, s.cols, from, row, col)
    {
      var i := CellIndex(row, col, s.cols);
      if Occupied(s.cells, i) && i != from {
        RowColOfIndex(row, col, s.cols);
        assert Fits(s, i);
        assert Covers(RectOf(s, i), row, col) && Covers(target, row, col);
        DisjointIffNoCommonCell(target, RectOf(s, i));
        assert false;
      }
    }
  }

  /** With the corrected test, a move keeps components inside the grid and apart. */
  lemma {:induction false} CoveringMoveKeepsLayout(s: Layout, from: nat, to: nat)
    requires InBounds(s) && NoOverlap(s)
    requires CoveringMoveAccepted(s, from, to)
    ensures InBounds(AfterMove(s, from, to)) && NoOverlap(AfterMove(s, from, to))
  {
    CoveringMoveIsStricter(s, from, to);
    MoveKeepsInBounds(s, from, to);
    var t := AfterMove(s, from, to);
    forall i | Occupied(t.cells, i) && i != to
      ensures i != from && Occupied(s.cells, i) && RectOf(t, i) == RectOf(s, i)
    {
    }
    if Occupied(t.cells, to) {
      assert from != to;
      assert RectOf(t, to) == TargetRect(s, from, to);
    }
    forall i, j | Occupied(t.cells, i) && Occupied(t.cells, j) && i != j
      ensures Disjoint(RectOf(t, i), RectOf(t, j))
    {
      if i == to {
        assert Disjoint(TargetRect(s, from, to), RectOf(s, j));
      } else if j == to {
        assert Disjoint(TargetRect(s, from, to), RectOf(s, i));
      } else {
        assert Disjoint(RectOf(s, i), RectOf(s, j));
      }
    }
  }
}
