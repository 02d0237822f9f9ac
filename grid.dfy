/**
 * The state of the dashboard grid and the handlers of `App` as functions
 * from the state before an event to the state after it.
 *
 * The state is the five pieces `App` keeps: the row and column counts, the
 * map from a cell to the key of the component placed there (`cells`), the
 * map from a cell to its span (`cellSpans`) and the map from a component
 * key to its type (`componentInstances`). Every handler first decides and
 * then replaces whole maps, so each is one function here; the class in
 * module Dashboard runs the same steps imperatively and is proved to land
 * on the state these functions give.
 */
module Grid {
  import opened Geometry

  datatype Option<T> = None | Some(value: T)

  /**
   * A component key, `type + "-" + clock reading`. It is never empty, so
   * it is never falsy: a cell counts as holding a component exactly when
   * its entry is `Some`.
   */
  type Key = s: string | |s| > 0 witness "-"

  /** How many columns and rows a component covers, anchored at its cell. */
  datatype Span = Span(colSpan: int, rowSpan: int)

  /** The span assumed for a cell that has none. */
  const DefaultSpan := Span(1, 1)

  /** What the registry remembers of a component: its type. */
  datatype Instance = Instance(typeTag: string)

  /**
   * `cells` maps a cell to the value stored under it; `None` stands for an
   * entry whose value is `undefined`, which a relocation from a cell
   * without a component leaves behind.
   */
  datatype Layout = Layout(
    rows: int,
    cols: Positive,
    cells: map<nat, Option<Key>>,
    spans: map<nat, Span>,
    instances: map<Key, Instance>)

  /** The state `App` starts with: two rows, five columns, nothing placed. */
  const Initial := Layout(2, 5, map[], map[], map[])

  /** The value read by `cells[i]`: `None` for a missing entry as for an `undefined` one. */
  function KeyAt(cells: map<nat, Option<Key>>, i: nat): Option<Key>
  {
    if i in cells then cells[i] else None
  }

  /** `cells[i]` is truthy. */
  predicate Occupied(cells: map<nat, Option<Key>>, i: nat)
  {
    KeyAt(cells, i).Some?
  }

  /** `cellSpans[i] || { colSpan: 1, rowSpan: 1 }`. */
  function SpanAt(spans: map<nat, Span>, i: nat): Span
  {
    if i in spans then spans[i] else DefaultSpan
  }

  /** The key created for a component of type `componentId` at clock reading `stamp`. */
  function InstanceKey(componentId: string, stamp: string): Key
  {
    componentId + "-" + stamp
  }

  // ---------------------------------------------------------------------
  // Placing, deleting and resizing

  /** `handleComponentSelect` for the cell that was clicked. */
  function AfterSelect(s: Layout, cell: nat, componentId: string, stamp: string): Layout
  {
    var key := InstanceKey(componentId, stamp);
    s.(cells := s.cells[cell := Some(key)],
       instances := s.instances[key := Instance(componentId)],
       spans := if cell in s.spans then s.spans else s.spans[cell := DefaultSpan])
  }

  /** `handleDeleteComponent`. */
  function AfterDelete(s: Layout, cell: nat): Layout
  {
    var key := KeyAt(s.cells, cell);
    s.(cells := s.cells - {cell},
       spans := s.spans - {cell},
       instances := if key.Some? then s.instances - {key.value} else s.instances)
  }

  /** `handleCellResize`; `newCell` is `None` when the caller passes no new cell. */
  function AfterResize(s: Layout, cell: nat, colSpan: int, rowSpan: int, newCell: Option<nat>): Layout
  {
    if newCell.Some? && newCell.value != cell then
      s.(cells := s.cells[newCell.value := KeyAt(s.cells, cell)] - {cell},
         spans := s.spans[newCell.value := Span(colSpan, rowSpan)] - {cell})
    else
      s.(spans := s.spans[cell := Span(colSpan, rowSpan)])
  }

  // ---------------------------------------------------------------------
  // Moving

  /**
   * The cell at (row, col) stops a move from `from`: it holds a component
   * and is not the moving component's own cell.
   */
  predicate Blocked(cells: map<nat, Option<Key>>, cols: Positive, from: nat, row: nat, col: nat)
  {
    var i := CellIndex(row, col, cols);
    Occupied(cells, i) && i != from
  }

  /** No cell of the `span`-sized area whose top-left corner is (top, left) stops the move. */
  predicate AreaClear(cells: map<nat, Option<Key>>, cols: Positive, top: nat, left: nat, span: Span, from: nat)
  {
    forall row: nat, col: nat | top <= row < top + span.rowSpan && left <= col < left + span.colSpan ::
      !Blocked(cells, cols, from, row, col)
  }

  /** The three tests of `handleComponentMove`, in the order it makes them. */
  predicate MoveAccepted(s: Layout, from: nat, to: nat)
  {
    var span := SpanAt(s.spans, from);
    var top, left := Row(to, s.cols), Col(to, s.cols);
    && !Occupied(s.cells, to)
    && left + span.colSpan <= s.cols
    && top + span.rowSpan <= s.rows
    && AreaClear(s.cells, s.cols, top, left, span, from)
  }

  /** What `handleComponentMove` commits once the tests pass. */
  function AfterMove(s: Layout, from: nat, to: nat): Layout
  {
    s.(cells := s.cells[to := KeyAt(s.cells, from)] - {from},
       spans := s.spans[to := SpanAt(s.spans, from)] - {from})
  }

  // ---------------------------------------------------------------------
  // Changing the dimensions

  /** The component at `i` still fits above row `n`. */
  predicate RowFits(s: Layout, i: nat, n: int)
  {
    Row(i, s.cols) < n && Row(i, s.cols) + SpanAt(s.spans, i).rowSpan <= n
  }

  /** The component at `i` still fits left of column `n`. */
  predicate ColFits(s: Layout, i: nat, n: int)
  {
    Col(i, s.cols) < n && Col(i, s.cols) + SpanAt(s.spans, i).colSpan <= n
  }

  /** `canReduceRows`. */
  predicate CanReduceRows(s: Layout, n: int)
  {
    n >= s.rows || forall i | i in s.cells && Occupied(s.cells, i) :: RowFits(s, i, n)
  }

  /** `canReduceCols`. */
  predicate CanReduceCols(s: Layout, n: int)
  {
    n >= s.cols || forall i | i in s.cells && Occupied(s.cells, i) :: ColFits(s, i, n)
  }

  /** The entries of `cells` whose index is below `bound`. */
  function Retained(cells: map<nat, Option<Key>>, bound: int): map<nat, Option<Key>>
  {
    map i | i in cells && i < bound :: cells[i]
  }

  /** The spans of the entries of `cells` whose index is below `bound`. */
  function RetainedSpans(cells: map<nat, Option<Key>>, spans: map<nat, Span>, bound: int): map<nat, Span>
  {
    map i | i in cells && i in spans && i < bound :: spans[i]
  }

  /** `handleRowsChange`. */
  function AfterRowsChange(s: Layout, n: int): Layout
  {
    if CanReduceRows(s, n) then
      s.(rows := n,
         cells := Retained(s.cells, n * s.cols),
         spans := RetainedSpans(s.cells, s.spans, n * s.cols))
    else
      s
  }

  /** `handleColsChange`: indices are kept as they are and only filtered. */
  function AfterColsChange(s: Layout, n: Positive): Layout
  {
    if CanReduceCols(s, n) then
      s.(cols := n,
         cells := Retained(s.cells, s.rows * n),
         spans := RetainedSpans(s.cells, s.spans, s.rows * n))
    else
      s
  }

  // ---------------------------------------------------------------------
  // Invariants

  /** Every key stored in a cell has its type registered. */
  ghost predicate Registered(s: Layout)
  {
    forall i | i in s.cells && s.cells[i].Some? :: s.cells[i].value in s.instances
  }

  /** No key is stored in two cells. */
  ghost predicate Unshared(s: Layout)
  {
    forall i, j | i in s.cells && j in s.cells && i != j && s.cells[i].Some? :: s.cells[i] != s.cells[j]
  }

  /** The invariant the handlers keep between the cells and the registry. */
  ghost predicate Consistent(s: Layout)
  {
    Registered(s) && Unshared(s)
  }

  /**
   * Every placed component has its own entry in `cellSpans`. The converse
   * does not hold: a resize or a move at a cell without a component stores
   * a span there.
   */
  ghost predicate SpanOfEveryComponent(s: Layout)
  {
    forall i | Occupied(s.cells, i) :: i in s.spans
  }

  /** The rectangle the component at `i` covers. */
  function RectOf(s: Layout, i: nat): Rect
  {
    var span := SpanAt(s.spans, i);
    Rect(Row(i, s.cols), Col(i, s.cols), span.rowSpan, span.colSpan)
  }

  /** The component at `i` covers at least one cell and lies inside the grid. */
  predicate Fits(s: Layout, i: nat)
  {
    var r := RectOf(s, i);
    NonEmpty(r) && r.top + r.height <= s.rows && r.left + r.width <= s.cols
  }

  /** Every placed component lies inside the grid. */
  ghost predicate InBounds(s: Layout)
  {
    forall i | Occupied(s.cells, i) :: Fits(s, i)
  }

  /** No two placed components cover a common cell. */
  ghost predicate NoOverlap(s: Layout)
  {
    forall i, j | Occupied(s.cells, i) && Occupied(s.cells, j) && i != j :: Disjoint(RectOf(s, i), RectOf(s, j))
  }
}
