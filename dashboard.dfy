/**
 * The `App` component as an object: its five pieces of state are fields
 * and its layout handlers are methods that rebuild and reassign them.
 * Each method is proved to leave the object in the state the matching
 * function of module Grid computes from the state before the call.
 */
module Dashboard {
  import opened Geometry
  import opened Grid

  /**
   * The `forEach` of `handleRowsChange` and `handleColsChange`: the entries
   * of `cells` below `bound`, and the spans of those entries.
   */
  method RetainBelow(cells: map<nat, Option<Key>>, spans: map<nat, Span>, bound: int)
    returns (newCells: map<nat, Option<Key>>, newSpans: map<nat, Span>)
    ensures forall i :: i in newCells <==> i in cells && i < bound
    ensures forall i | i in newCells :: newCells[i] == cells[i]
    ensures forall i :: i in newSpans <==> i in newCells && i in spans
    ensures forall i | i in newSpans :: newSpans[i] == spans[i]
  {
    newCells, newSpans := map[], map[];
    var pending := cells.Keys;
    while pending != {}
      invariant pending <= cells.Keys
      invariant forall i :: i in newCells <==> i in cells && i !in pending && i < bound
      invariant forall i | i in newCells :: newCells[i] == cells[i]
      invariant forall i :: i in newSpans <==> i in newCells && i in spans
      invariant forall i | i in newSpans :: newSpans[i] == spans[i]
      decreases pending
    {
      var cellId :| cellId in pending;
      if cellId < bound {
        newCells := newCells[cellId := cells[cellId]];
        if cellId in spans {
          newSpans := newSpans[cellId := spans[cellId]];
        }
      }
      pending := pending - {cellId};
    }
  }

  /**
   * The nested loops of `handleComponentMove`: no cell of the `span`-sized
   * area at (top, left) holds a component other than the one at `from`.
   */
  method SpanAreaFree(cells: map<nat, Option<Key>>, cols: Positive, top: nat, left: nat, span: Span, from: nat)
    returns (free: bool)
    ensures free <==> AreaClear(cells, cols, top, left, span, from)
  {
    var r := 0;
    while r < span.rowSpan
      invariant 0 <= r && (r <= span.rowSpan || r == 0)
      invariant forall row: nat, col: nat | top <= row < top + r && left <= col < left + span.colSpan ::
        !Blocked(cells, cols, from, row, col)
    {
      var row, c := top + r, 0;
      while c < span.colSpan
        invariant 0 <= c && (c <= span.colSpan || c == 0)
        invariant forall row: nat, col: nat | top <= row < top + r && left <= col < left + span.colSpan ::
          !Blocked(cells, cols, from, row, col)
        invariant forall col: nat | left <= col < left + c :: !Blocked(cells, cols, from, row, col)
      {
        var checkCellId := CellIndex(row, left + c, cols);
        if Occupied(cells, checkCellId) && checkCellId != from {
          assert Blocked(cells, cols, from, row, left + c);
          return false;
        }
        c := c + 1;
      }
      r := r + 1;
    }
    return true;
  }

  class App {
    var rows: int
    var cols: Positive
    var cells: map<nat, Option<Key>>
    var cellSpans: map<nat, Span>
    var componentInstances: map<Key, Instance>

    /** The object's state as a value. */
    function State(): Layout
      reads this
    {
      Layout(rows, cols, cells, cellSpans, componentInstances)
    }

    constructor ()
      ensures State() == Initial
    {
      rows, cols := 2, 5;
      cells, cellSpans, componentInstances := map[], map[], map[];
    }

    /**
     * Places a component of type `componentId` in the clicked cell `cellId`;
     * `stamp` is the clock reading that makes its key.
     */
    method SelectComponent(cellId: nat, componentId: string, stamp: string)
      modifies this
      ensures State() == AfterSelect(old(State()), cellId, componentId, stamp)
    {
      var componentKey := InstanceKey(componentId, stamp);
      cells := cells[cellId := Some(componentKey)];
      componentInstances := componentInstances[componentKey := Instance(componentId)];
      if cellId !in cellSpans {
        cellSpans := cellSpans[cellId := DefaultSpan];
      }
    }

    method DeleteComponent(cellId: nat)
      modifies this
      ensures State() == AfterDelete(old(State()), cellId)
    {
      var componentKey := KeyAt(cells, cellId);
      cells := cells - {cellId};
      cellSpans := cellSpans - {cellId};
      if componentKey.Some? {
        componentInstances := componentInstances - {componentKey.value};
      }
    }

    method ResizeCell(cellId: nat, colSpan: int, rowSpan: int, newCellId: Option<nat>)
      modifies this
      ensures State() == AfterResize(old(State()), cellId, colSpan, rowSpan, newCellId)
    {
      if newCellId.Some? && newCellId.value != cellId {
        var newCells := cells[newCellId.value := KeyAt(cells, cellId)];
        newCells := newCells - {cellId};
        var newSpans := cellSpans[newCellId.value := Span(colSpan, rowSpan)];
        newSpans := newSpans - {cellId};
        cells, cellSpans := newCells, newSpans;
      } else {
        cellSpans := cellSpans[cellId := Span(colSpan, rowSpan)];
      }
    }

    /** Drags the component at `fromCellId` to `toCellId`; `moved` says whether it went. */
    method MoveComponent(fromCellId: nat, toCellId: nat) returns (moved: bool)
      modifies this
      ensures moved == MoveAccepted(old(State()), fromCellId, toCellId)
      ensures State() == if moved then AfterMove(old(State()), fromCellId, toCellId) else old(State())
    {
      if Occupied(cells, toCellId) {
        return false;
      }
      var span := SpanAt(cellSpans, fromCellId);
      var targetRow, targetCol := Row(toCellId, cols), Col(toCellId, cols);
      if targetCol + span.colSpan > cols || targetRow + span.rowSpan > rows {
        return false;
      }
      var free := SpanAreaFree(cells, cols, targetRow, targetCol, span, fromCellId);
      if !free {
        return false;
      }
      var newCells := cells[toCellId := KeyAt(cells, fromCellId)];
      newCells := newCells - {fromCellId};
      var newSpans := cellSpans[toCellId := span];
      newSpans := newSpans - {fromCellId};
      cells, cellSpans := newCells, newSpans;
      return true;
    }

    method ChangeRows(newRows: int)
      modifies this
      ensures State() == AfterRowsChange(old(State()), newRows)
    {
      if !CanReduceRows(State(), newRows) {
        return;
      }
      rows := newRows;
      var newCells, newSpans := RetainBelow(cells, cellSpans, newRows * cols);
      assert newCells == Retained(cells, newRows * cols);
      assert newSpans == RetainedSpans(cells, cellSpans, newRows * cols);
      cells, cellSpans := newCells, newSpans;
    }

    method ChangeCols(newCols: Positive)
      modifies this
      ensures State() == AfterColsChange(old(State()), newCols)
    {
      if !CanReduceCols(State(), newCols) {
        return;
      }
      cols := newCols;
      var newCells, newSpans := RetainBelow(cells, cellSpans, rows * newCols);
      assert newCells == Retained(cells, rows * newCols);
      assert newSpans == RetainedSpans(cells, cellSpans, rows * newCols);
      cells, cellSpans := newCells, newSpans;
    }
  }
}
