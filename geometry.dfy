/**
 * Geometry of the dashboard grid.
 *
 * A cell is addressed by one linear index `i`; with `cols` columns its
 * row is `floor(i / cols)` and its column `i mod cols` (the handlers
 * compute exactly these with `Math.floor(i / cols)` and `i % cols`, which
 * agree with Dafny's `/` and `%` because `i` is never negative and `cols`
 * is positive).
 */
module Geometry {

  /** A column count: the handlers divide by it, so it is at least 1. */
  type Positive = n: int | n >= 1 witness 1

  function Row(i: nat, cols: Positive): nat
  {
    i / cols
  }

  function Col(i: nat, cols: Positive): nat
  {
    i % cols
  }

  /** The linear index of (row, col): `row * cols + col`. */
  function CellIndex(row: nat, col: nat, cols: Positive): nat
  {
    MulNonNegative(row, cols);
    row * cols + col
  }

  lemma MulNonNegative(a: nat, b: nat)
    ensures a * b >= 0
  {
  }

  /** Multiplying by a positive count keeps order. */
  lemma {:induction false} MulMonotone(a: int, b: int, cols: Positive)
    requires a <= b
    ensures a * cols <= b * cols
  {
    assert b * cols - a * cols == (b - a) * cols;
    MulNonNegative(b - a, cols);
  }

  /** Every index is the index of its own row and column, and its column is inside the grid. */
  lemma IndexDecomposes(i: nat, cols: Positive)
    ensures Col(i, cols) < cols
    ensures CellIndex(Row(i, cols), Col(i, cols), cols) == i
  {
  }

  /** Row and column are read back from an index built from them, as long as the column is inside the grid. */
  lemma {:induction false} RowColOfIndex(row: nat, col: nat, cols: Positive)
    requires col < cols
    ensures Row(CellIndex(row, col, cols), cols) == row
    ensures Col(CellIndex(row, col, cols), cols) == col
  {
    var i := CellIndex(row, col, cols);
    var q, m := Row(i, cols), Col(i, cols);
    IndexDecomposes(i, cols);
    assert (q - row) * cols == col - m;
    if q > row {
      MulMonotone(1, q - row, cols);
      assert false;
    } else if q < row {
      MulMonotone(1, row - q, cols);
      assert false;
    }
  }

  /**
   * An index lies below `n` full rows exactly when its row is below `n`:
   * the filters `i < newRows * cols` of the dimension changes keep exactly
   * the cells of the rows that remain.
   */
  lemma {:induction false} BelowRowsIffRowBelow(i: nat, cols: Positive, n: int)
    ensures i < n * cols <==> Row(i, cols) < n
  {
    var r := Row(i, cols);
    IndexDecomposes(i, cols);
    if r < n {
      MulMonotone(r + 1, n, cols);
      assert (r + 1) * cols == r * cols + cols;
    } else {
      MulMonotone(n, r, cols);
    }
  }

  /** A rectangle of cells: top-left corner, height in rows and width in columns. */
  datatype Rect = Rect(top: int, left: int, height: int, width: int)

  predicate Covers(r: Rect, row: int, col: int)
  {
    r.top <= row < r.top + r.height && r.left <= col < r.left + r.width
  }

  predicate NonEmpty(r: Rect)
  {
    r.height >= 1 && r.width >= 1
  }

  /** Two rectangles are apart when one ends above, below, left of or right of the other. */
  predicate Disjoint(a: Rect, b: Rect)
  {
    || a.top + a.height <= b.top
    || b.top + b.height <= a.top
    || a.left + a.width <= b.left
    || b.left + b.width <= a.left
  }

  /** The comparison of the edges agrees with the cell-by-cell meaning of "no common cell". */
  lemma {:induction false} DisjointIffNoCommonCell(a: Rect, b: Rect)
    requires NonEmpty(a) && NonEmpty(b)
    ensures Disjoint(a, b) <==> forall row, col :: !(Covers(a, row, col) && Covers(b, row, col))
  {
    if !Disjoint(a, b) {
      var row := if a.top < b.top then b.top else a.top;
      var col := if a.left < b.left then b.left else a.left;
      assert Covers(a, row, col) && Covers(b, row, col);
    }
  }
}
