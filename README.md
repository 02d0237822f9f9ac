# Grid layout engine of the Gamemaster Screen dashboard

The dashboard shows a grid of `rows` by `cols` cells. A user clicks a cell
to place a component (dice roller, notes, timer, ...), can resize it to
cover several rows and columns, drag it to another cell, delete it, and
change the number of rows or columns. All of this lives in the `App`
component of `src/App.js`, in five pieces of state:

- `rows` and `cols`, the grid's dimensions (two and five at start);
- `cells`, from a linear cell index to the key of the component placed there;
- `cellSpans`, from a cell index to `{ colSpan, rowSpan }`;
- `componentInstances`, from a component key to `{ type }`.

A cell index `i` stands for row `floor(i / cols)` and column `i mod cols`.
A component covers the rectangle whose top-left corner is its cell and
whose size is its span.

The model has five modules:

- `Geometry` (geometry.dfy): row and column of an index and back, rectangles.
- `Grid` (grid.dfy): the state as a value (`Layout`) and every handler as a
  function from the state before to the state after; the two shrink tests.
- `Dashboard` (dashboard.dfy): class `App` with the five fields and the
  handlers as methods that rebuild and reassign the maps, with the loops of
  the source (the nested loops of the move test, the `forEach` of the
  dimension changes); each method is proved to reach the state the `Grid`
  function gives.
- `GridProperties` (grid_properties.dfy): what each handler does, that a
  refused operation changes nothing, and which invariants each operation keeps.
- `Findings` (findings.dfy) and `Scenarios` (scenarios.dfy): concrete grids
  that show where the handlers do not keep the layout sound, and corrected
  definitions with the intended properties proved.

Four invariants are stated in `Grid`: `Consistent` (every stored key is
registered, and no key is stored in two cells), `SpanOfEveryComponent`
(every placed component has a span entry), `InBounds` (every component's
rectangle is non-empty and inside the grid) and `NoOverlap` (no two
components' rectangles meet).

A cell's entry in `cells` is an `Option<Key>`: `None` stands for an entry
whose value is `undefined`. Resizing with relocation, or moving, from a cell
that holds no component writes such an entry, and the dimension changes
keep the span of such an entry when it is in range, so the model keeps it
apart from a missing entry. Keys are non-empty strings, so a stored key is
never falsy.

A user of the grid would expect some things the handlers do not do:
refusing overlapping placements, validating resizes, dropping a component's
instance along with its cell. The handlers of `src/App.js` do the following,
and the model follows them:

- placing a component checks nothing; placing on an occupied cell replaces
  the entry and leaves the old instance registered (`SelectOverOccupiedOrphans`),
  and placing on a cell covered by another component's span is accepted
  (`Scenarios.PlaceOnCoveredCell`);
- deleting removes the cell's span too, so a span lingers at a cell without a
  component only when a resize, or a move from a cell without a component,
  wrote it there (`Scenarios.OversizedResizeIsStored`,
  `Scenarios.MoveFromEmptyCellLeavesSpan`); the other direction holds: every
  placed component has a span entry, and every handler keeps that
  (`Grid.SpanOfEveryComponent` and the `...KeepsSpans` lemmas);
- resizing has no validation at all (`Scenarios.OversizedResizeIsStored`);
- the move test looks only at the entries of `cells`, that is at the cells
  where components start, not at the cells their spans cover;
- the column change keeps linear indices and only filters them, so cells are
  read again under the new column count;
- the dimension changes drop entries from `cells` and `cellSpans` but never
  unregister an instance.

## Model

| member | source | states |
|---|---|---|
| Geometry.IndexDecomposes | src/App.js:152-153 | an index is `row * cols + col` of its own row and column, and its column is below `cols` |
| Geometry.RowColOfIndex | src/App.js:163 | the row and column read back from index `row * cols + col` are `row` and `col` whenever `col < cols` |
| Geometry.BelowRowsIffRowBelow | src/App.js:238 | `i < n * cols` holds exactly when the row of `i` is below `n` |
| Geometry.DisjointIffNoCommonCell | src/App.js:161-168 | for non-empty rectangles, the edge comparison says exactly that no cell lies in both |
| GridProperties.InstanceKeysDiffer | src/App.js:80 | two components of one type created at different clock readings get different keys |
| GridProperties.SelectPlaces | src/App.js:78-102 | the cell holds the new key, the key is registered with its type, the cell keeps its span or gets 1x1 if it had none, and no other cell, span or instance changes |
| GridProperties.SelectKeepsConsistent | src/App.js:82-90 | with a fresh key every stored key stays registered and unshared |
| GridProperties.SelectOverOccupiedOrphans | src/App.js:82-90 | placing over an occupied cell leaves the old component registered with no cell holding it |
| GridProperties.SelectKeepsLayout | src/App.js:92-98 | when the cell's span fits the grid and meets no other component, the layout stays in bounds and free of overlap |
| GridProperties.DeleteRemoves | src/App.js:104-119 | `cells` and `cellSpans` become exactly the old maps without the cell, and its component is unregistered (only if it held one) |
| GridProperties.DeleteEmptyIsNoop | src/App.js:104-119 | deleting a cell with no entry and no span changes nothing |
| GridProperties.DeleteIdempotent | src/App.js:104-119 | deleting twice gives the state deleting once gives |
| GridProperties.DeleteKeepsConsistent | src/App.js:113-118 | after a delete every remaining stored key is still registered and unshared |
| GridProperties.DeleteKeepsLayout | src/App.js:105-111 | a delete keeps every component in bounds and apart |
| GridProperties.ResizeRelocates | src/App.js:123-136 | with a different new cell, the new cell gets an entry holding the old cell's value (`undefined` included) and the new span, the old cell loses entry and span, nothing else changes |
| GridProperties.ResizeInPlace | src/App.js:137-142 | with no new cell or the same cell only that cell's span changes |
| GridProperties.ResizeKeepsConsistent | src/App.js:121-143 | a resize keeps every stored key registered and unshared |
| GridProperties.MoveRefusals | src/App.js:145-168 | a move is refused when the target holds a component (so also onto its own cell), when the span crosses the right or bottom edge, or when another component's cell lies in the target area |
| GridProperties.MoveRelocates | src/App.js:170-182 | an accepted move gives the target an entry holding the source's value (`undefined` included) and its span, removes the source's entry and span, and changes no other cell, span or instance |
| GridProperties.MoveKeepsInBounds | src/App.js:151-158 | an accepted move keeps every component inside the grid |
| GridProperties.MoveKeepsConsistent | src/App.js:170-182 | a move keeps every stored key registered and unshared |
| GridProperties.CanReduceRowsMonotone | src/App.js:191-207 | a row count the test accepts makes it accept every larger one |
| GridProperties.CanReduceRowsIff | src/App.js:191-207 | in a grid whose components lie inside it the row test accepts `n` exactly when every component ends at or above row `n` |
| GridProperties.RowsChangeRefused | src/App.js:228-231 | a refused row count changes nothing |
| GridProperties.RowsChangeRetains | src/App.js:233-246 | an accepted row count is set; exactly the entries below `n * cols` (the first `n` rows) stay with their values, only their spans stay, the registry is untouched |
| GridProperties.RowsChangeKeepsComponents | src/App.js:191-246 | in a grid whose components lie inside it an accepted row count keeps every component with its key and span |
| GridProperties.RowsChangeKeepsLayout | src/App.js:228-247 | a row change keeps the layout in bounds, free of overlap and consistent |
| GridProperties.CanReduceColsMonotone | src/App.js:210-226 | a column count the test accepts makes it accept every larger one |
| GridProperties.CanReduceColsIff | src/App.js:210-226 | in a grid whose components lie inside it the column test accepts `n` exactly when every component ends at or left of column `n` |
| GridProperties.ColsChangeRefused | src/App.js:249-252 | a refused column count changes nothing |
| GridProperties.ColsChangeRetains | src/App.js:254-267 | an accepted column count is set; exactly the entries below `rows * n` stay under their old index with their values, only their spans stay, the registry is untouched |
| GridProperties.ColsChangeKeepsConsistent | src/App.js:249-268 | a column change keeps every stored key registered and unshared |
| GridProperties.SelectKeepsSpans | src/App.js:92-98 | after a placement every placed component still has a span entry: the clicked cell gets a 1x1 span when it had none |
| GridProperties.DeleteKeepsSpans | src/App.js:104-111 | a delete keeps a span entry for every remaining component |
| GridProperties.ResizeKeepsSpans | src/App.js:121-143 | a resize writes a span wherever it writes the component, so every placed component keeps a span entry |
| GridProperties.MoveKeepsSpans | src/App.js:170-182 | a move writes the moved span at the target, so every placed component keeps a span entry |
| GridProperties.RowsChangeKeepsSpans | src/App.js:233-246 | a row change keeps the span of every component it keeps |
| GridProperties.ColsChangeKeepsSpans | src/App.js:254-267 | a column change keeps the span of every component it keeps |
| GridProperties.InitialIsWellFormed | src/App.js:9-15 | the grid starts with two rows, five columns and a consistent, in-bounds, overlap-free layout in which every component has a span |
| Dashboard.RetainBelow | src/App.js:235-244 | the loop's new cell map holds exactly the entries below the bound with their values, and the new span map exactly their spans |
| Dashboard.SpanAreaFree | src/App.js:160-168 | the nested loops answer true exactly when no cell of the target area holds a component other than the moving one |
| Dashboard.App.constructor | src/App.js:9-15 | the object starts in the initial state |
| Dashboard.App.SelectComponent | src/App.js:78-102 | the new state is the one `Grid.AfterSelect` gives |
| Dashboard.App.DeleteComponent | src/App.js:104-119 | the new state is the one `Grid.AfterDelete` gives |
| Dashboard.App.ResizeCell | src/App.js:121-143 | the new state is the one `Grid.AfterResize` gives |
| Dashboard.App.MoveComponent | src/App.js:145-183 | the result is the move test, and the state is `Grid.AfterMove` when it passes and unchanged when it fails |
| Dashboard.App.ChangeRows | src/App.js:228-247 | the new state is the one `Grid.AfterRowsChange` gives |
| Dashboard.App.ChangeCols | src/App.js:249-268 | the new state is the one `Grid.AfterColsChange` gives |
| Findings.ColsChangeDropsAcceptedComponent | src/App.js:254-267 | on two rows of five with a component at cell 6, narrowing to three columns passes the test but drops the component's cell and leaves its instance orphaned |
| Findings.ColsChangeMovesComponentOutOfGrid | src/App.js:258-259 | widening two rows of five to six columns turns an in-bounds full-row component into one that runs past the right edge |
| Findings.RenumberedColsChangeKeepsComponents | src/App.js:254-267 | with renumbered indices an accepted column change keeps every component at its row and column with its key and span |
| Findings.RenumberedColsChangeKeepsLayout | src/App.js:254-267 | with renumbered indices a column change keeps the layout in bounds, free of overlap and consistent |
| Findings.RenumberedColsChangeKeepsExample | src/App.js:254-267 | on the first example the renumbered change keeps the component, at index 4 |
| Findings.MoveOntoSpannedCell | src/App.js:145-168 | a move whose target area holds no component's first cell but a cell another component covers is accepted and makes the two overlap |
| Findings.CoveringMoveIsStricter | src/App.js:160-168 | the corrected move test accepts only moves the code's test accepts |
| Findings.CoveringMoveKeepsLayout | src/App.js:145-182 | with the corrected test a move keeps the layout in bounds and free of overlap |
| Scenarios.PlaceOnCoveredCell | src/App.js:78-143 | placing on a cell covered by a resized component is accepted and makes the two overlap |
| Scenarios.MoveWideComponentDown | src/App.js:145-182 | a two-wide component at cell 2 moves to cell 7 and then covers cells 7 and 8 |
| Scenarios.ReduceRowsThroughComponent | src/App.js:191-231 | reducing three rows to two is refused while a component at row 1 is two rows high, and nothing changes |
| Scenarios.MoveFromEmptyCellLeavesSpan | src/App.js:170-182 | a drag from a cell without a component passes every test and leaves an `undefined` entry with a 1x1 span at the target |
| Scenarios.OversizedResizeIsStored | src/App.js:137-142 | a ten-column span on a five-column grid is stored as given |

## Findings

| source | as written | input that shows it | evidently intended | confidence | as-written member | corrected member |
|---|---|---|---|---|---|---|
| src/App.js:258-259 | the column change keeps a cell's linear index and keeps it when it is below `rows * newCols` | two rows, five columns, a 1x1 component at cell 6 (row 1, column 1), change to three columns: `canReduceCols(3)` is true, but 6 is not below 6, so the cell is dropped and its instance orphaned; widening to six columns moves a full-row component at cell 5 to row 0, column 5, past the right edge | each component keeps its row and column: index `row * newCols + col` | high, not executed | Findings.ColsChangeDropsAcceptedComponent | Findings.RenumberedColsChangeKeepsComponents |
| src/App.js:160-168 | the move test looks only at the entries of `cells`, which are the cells where components start | two rows, five columns, a component at cell 1 two rows high, a component at cell 3 two columns wide; moving the second to cell 5 is accepted, and cell 6 is then covered by both | refuse a move whose rectangle meets any other component's rectangle | medium, not executed | Findings.MoveOntoSpannedCell | Findings.CoveringMoveKeepsLayout |

The class `Dashboard.App` keeps the code's behaviour in both places; the
corrected definitions (`Findings.AfterColsChangeRenumbered`,
`Findings.CoveringMoveAccepted`) stand beside it with their properties
proved.

## Left out

- The dice result overlay and its timer (`handleSetGlobalDiceResult`), the fullscreen toggle, the keyboard and mouse listeners, the selector's open and selected-cell flags and all rendering: presentation, not layout.
- `Date.now()`: the clock reading is the `stamp` parameter of `SelectComponent`; freshness of the resulting key is a requirement of the lemmas that need it.
- Which cell indices, spans and new cells the grid component passes to the handlers: `src/components/DMGrid` is not part of this model, so the handlers take any natural index and any integer span.
- JavaScript's string object keys, `parseInt`, and strict comparison between a string and a number index: indices are natural numbers throughout.
- React's state updates are asynchronous and each handler reads the state of the render it was created in; the model runs handlers one after another on the latest state.
- Dashboard.App.ChangeCols: takes a positive column count; a non-positive count, which only a typed negative number could produce past `parseInt(...) || 1`, would make the source divide by zero or by a negative number, and is not modelled.
- `src/components/GridControls.js`, `ComponentSelector.js`, `shared/Settings.js` and `template/Template.js`: input parsing, a static list of types, a settings dialog and a widget scaffold over a storage module that is not part of this model; none holds layout logic.
- The erasing of a deleted widget's stored state: it is not done in `src/App.js`.
