/**
 * Worked examples on small grids, stated over the functions of module
 * Grid. Where a user would expect a refusal that the handlers do not make,
 * the example states what the handlers do.
 */
module Scenarios {
  import opened Geometry
  import opened Grid

  /**
   * A dice roller is placed at cell 0 and resized to two by two. Placing a
   * notes component at cell 1, which the dice roller now covers, is not
   * refused: the handler writes the entry, and the two components overlap.
   */
  lemma PlaceOnCoveredCell()
    ensures var s1 := AfterSelect(Initial, 0, "dice-roller", "1");
      var s2 := AfterResize(s1, 0, 2, 2, None);
      var s3 := AfterSelect(s2, 1, "notes", "2");
      && SpanAt(s1.spans, 0) == Span(1, 1)
      && RectOf(s2, 0) == Rect(0, 0, 2, 2)
      && KeyAt(s3.cells, 1) == Some(InstanceKey("notes", "2"))
      && !NoOverlap(s3)
  {
    var s1 := AfterSelect(Initial, 0, "dice-roller", "1");
    var s2 := AfterResize(s1, 0, 2, 2, None);
    var s3 := AfterSelect(s2, 1, "notes", "2");
    assert Row(1, 5) == 0 && Col(1, 5) == 1;
    assert Occupied(s3.cells, 0) && Occupied(s3.cells, 1);
    assert RectOf(s3, 0) == Rect(0, 0, 2, 2) && RectOf(s3, 1) == Rect(0, 1, 1, 1);
  }

  const DiceKey: Key := "dice-roller-1"

  /** A component at cell 2 two columns wide, on two rows of five columns. */
  const WideAtTwo := Layout(2, 5, map[2 := Some(DiceKey)], map[2 := Span(2, 1)], map[DiceKey := Instance("dice-roller")])

  /** Moving it to cell 7 (row 1, column 2) is accepted; cells 7 and 8 become covered and cell 2 empty. */
  lemma MoveWideComponentDown()
    ensures MoveAccepted(WideAtTwo, 2, 7)
    ensures var t := AfterMove(WideAtTwo, 2, 7);
      && !Occupied(t.cells, 2) && KeyAt(t.cells, 7) == Some(DiceKey)
      && RectOf(t, 7) == Rect(1, 2, 1, 2)
  {
    assert Row(7, 5) == 1 && Col(7, 5) == 2;
    forall row: nat, col: nat | 1 <= row < 2 && 2 <= col < 4 ensures !Blocked(WideAtTwo.cells, 5, 2, row, col) {
      assert CellIndex(row, col, 5) == 5 + col;
    }
  }

  /** Three rows of five columns, a component at cell 5 (row 1) two rows high. */
  const TallAtFive := Layout(3, 5, map[5 := Some(DiceKey)], map[5 := Span(1, 2)], map[DiceKey := Instance("dice-roller")])

  /** Reducing it to two rows is refused, because the component needs row 2, and nothing changes. */
  lemma ReduceRowsThroughComponent()
    ensures !CanReduceRows(TallAtFive, 2)
    ensures AfterRowsChange(TallAtFive, 2) == TallAtFive
  {
    assert Row(5, 5) == 1;
    assert !RowFits(TallAtFive, 5, 2);
  }

  /**
   * Dragging from cell 3, which holds no component, to cell 4 passes every
   * test; cell 4 then has an `undefined` entry and a 1x1 span but no component.
   */
  lemma MoveFromEmptyCellLeavesSpan()
    ensures MoveAccepted(Initial, 3, 4)
    ensures var t := AfterMove(Initial, 3, 4);
      && 4 in t.cells && t.cells[4] == None && t.spans == map[4 := DefaultSpan]
  {
  }

  /**
   * A resize of the empty cell 3 to ten columns on five is not refused:
   * the handler stores the span as given.
   */
  lemma OversizedResizeIsStored()
    ensures var t := AfterResize(Initial, 3, 10, 1, Some(3));
      && t.spans == map[3 := Span(10, 1)] && t.cells == Initial.cells
  {
  }
}
