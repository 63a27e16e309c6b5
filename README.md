# grid-fill: the flood-fill engine and its interaction state

grid-fill shows a square grid of cells that are either filled (1) or empty (0).
When the pointer rests on a cell, the page highlights that cell's connected
component. This is every filled cell reachable from it through up, down, left
and right steps over filled cells. When a filled cell is clicked, a tooltip on
it shows the component's size.

This project models the engine behind that behaviour, `src/Grid.tsx`, and the
cell event handlers in `src/GridCell.tsx`, in Dafny:

- `Grid` (grid.dfy): positions, tooltips and the `GridData` record; the
  bounds test `inSquare`; the neighbour list `getNeighbours` built on `filter`;
  the display-class rule `getClassName`; the record updates behind
  `setTooltip` and `setHovered`; and `generateGrid`, with its nested loops.
  The random draws are supplied as bits.
- `Connectivity` (connectivity.dfy): the recursive flood fill
  `visitAllConnectedFilled` and the query `getAllConnected`. Both are methods,
  proved against `Component`, a specification of the connected component
  defined through chains of adjacent filled cells.
- `InitialGridQueries` (initial_grid.dfy): the answers on the starting
  5 x 5 grid.
- `GridComponent` (grid_component.dfy): the state the `Grid` component keeps
  with `useState`. It is modelled as the class `GridState`. Its methods are the
  two setters, the reset on mouse-leave and the regeneration when the size
  slider moves. `Consistent` is the invariant of the page's state. It is kept
  by the mouse-leave reset, the regeneration and the two cell handlers, but
  not by the raw setters, which accept any argument.
- `GridCell` (grid_cell.dfy): the `onClick` and `onMouseOver` handlers, and
  the rule for which cell shows the tooltip text.
- `Decimal` (decimal.dfy): the `toString()` of a component size, with a parser
  that undoes it.

Modelling choices:

- Positions are a value datatype. The source keys its sets by the string
  `"row col"` only because JavaScript sets compare objects by reference. That
  key is injective, so a pair compared by value is equivalent.
- Cells are integers. "Filled" means non-zero, which is the truth test
  `grid.contents[row][col]` performs.
- `visitAllConnectedFilled` changes one `Set` in place while it recurses.
  The model passes that set in and hands it back. No other reference to the
  set exists, so the effect is the same.
- Both `.filter` calls in `visitAllConnectedFilled` run before its `forEach`.
  So a neighbour that an earlier sibling already reached is entered a second
  time. The model keeps this. Its termination measure is the number of cells
  of the square that are outside `visited` and other than the current cell.
- The code reports no error for a bad size or an out-of-grid position, and its
  traversal is recursive. The model does the same: a size is a `nat`,
  positions must lie in the square (`requires`), and the traversal is
  recursive.

## Model

| member | source | states |
|---|---|---|
| `Grid.InSquareIsCell` | src/Grid.tsx:42-44 | `inSquare(pos, size)` holds exactly when `pos` is one of the cells of the `size` x `size` square `[0, size) x [0, size)` |
| `Grid.Filter` | src/Grid.tsx:60 | `filter` keeps exactly the elements that satisfy the predicate, and the result is no longer than the input |
| `Grid.FilterCounts` | src/Grid.tsx:73-74 | `filter` keeps each element that satisfies the predicate as often as it occurs in the input, and drops every other element |
| `Grid.FilterKeepsOrder` | src/Grid.tsx:72-74 | filtering keeps the relative order of the elements it keeps |
| `Grid.Neighbours` | src/Grid.tsx:52-61 | `getNeighbours` returns at most 4 positions. They are exactly the in-square positions one step up, down, left or right. They come in the order up, down, left, right |
| `Grid.ClassName` | src/Grid.tsx:102-112 | the class is `hovered` exactly when the position is hovered, whatever the cell holds. Otherwise it is `filled` exactly when the cell is non-zero, and `background` when it is zero |
| `Grid.WithTooltip` | src/Grid.tsx:161-163 | the `setTooltip` update sets the tooltip and leaves contents and hovered unchanged |
| `Grid.WithHovered` | src/Grid.tsx:164-166 | the `setHovered` update replaces the hovered set and leaves contents and tooltip unchanged |
| `Grid.GenerateGrid` | src/Grid.tsx:119-136 | `generateGrid(size)` gives `size` rows of `size` cells. The k-th random draw, in row-major order, fills the k-th cell. Every cell is 0 or 1. Nothing is hovered and there is no tooltip |
| `Connectivity.ReachableTransitive` | src/Grid.tsx:69-76 | two chains of adjacent filled cells that meet join into one chain |
| `Connectivity.ReachableSymmetric` | src/Grid.tsx:69-76 | a chain from a filled cell can be walked backwards, so connectivity is symmetric |
| `Connectivity.ComponentStart` | src/Grid.tsx:87-91 | the component of an in-square cell is empty exactly when the cell is empty. A filled start belongs to its own component |
| `Connectivity.ComponentMembers` | src/Grid.tsx:72-74 | every member of a component is in the square, is filled, and is reachable from the start |
| `Connectivity.ComponentClosed` | src/Grid.tsx:72-75 | every filled neighbour of a member is a member (completeness) |
| `Connectivity.ComponentIsLeast` | src/Grid.tsx:69-76 | any set that contains a filled start and is closed under filled neighbours contains the whole component |
| `Connectivity.ComponentOfMember` | src/Grid.tsx:84-94 | querying from any member of a component gives the identical component |
| `Connectivity.ComponentsDisjointOrEqual` | src/Grid.tsx:84-94 | two components that share a cell are equal |
| `Connectivity.VisitAllConnectedFilled` | src/Grid.tsx:69-76 | the visit adds `pos` and keeps everything already visited. Every cell it adds is reachable from `pos`, and all of that cell's filled neighbours are in the final visited set |
| `Connectivity.GetAllConnected` | src/Grid.tsx:84-94 | `getAllConnected` returns exactly the component of the start: empty for an empty start cell, and otherwise every cell reachable from it through filled cells and nothing else |
| `InitialGridQueries.LeftBlockQuery` | src/Grid.tsx:7-13 | on the starting grid, querying (2, 0) gives {(1,0), (1,1), (2,0), (2,1)}. Its size text is "4". The pair (2,3)-(2,4) is not included |
| `InitialGridQueries.RightPairQuery` | src/Grid.tsx:7-13 | on the starting grid, querying (2, 3) gives {(2,3), (2,4)}, with size text "2" |
| `InitialGridQueries.EmptyCornerQuery` | src/Grid.tsx:7-13 | on the starting grid, querying the empty cell (0, 0) gives the empty set |
| `GridComponent.GridState.constructor` | src/Grid.tsx:154-157 | the page starts on the starting grid with nothing hovered and no tooltip, a consistent state |
| `GridComponent.GridState.SetTooltip` | src/Grid.tsx:161-163 | `setTooltip` replaces only the tooltip |
| `GridComponent.GridState.SetHovered` | src/Grid.tsx:164-166 | `setHovered` replaces only the hovered set |
| `GridComponent.GridState.MouseLeave` | src/Grid.tsx:182-184 | leaving the table empties the hovered set, leaves the tooltip untouched, and keeps the state consistent |
| `GridComponent.GridState.Resize` | src/Grid.tsx:171-172 | moving the slider replaces the state with a freshly generated `size` x `size` grid. This clears both the hovered set and the tooltip |
| `GridCell.OnClick` | src/GridCell.tsx:12-19 | a click leaves the state alone on an empty cell. On a filled cell it sets the tooltip to that cell and the decimal size of its component |
| `GridCell.OnMouseOver` | src/GridCell.tsx:20-22 | hovering replaces the hovered set with the cell's component, which is empty for an empty cell |
| `GridCell.TooltipText` | src/GridCell.tsx:23-27 | a cell shows text exactly when a tooltip exists and its position is the cell's. The text shown is the tooltip's |
| `GridCell.TooltipOnOneCell` | src/GridCell.tsx:23-27 | at most one cell shows tooltip text at a time |
| `GridCell.ClickOnEmptyCell` | src/GridCell.tsx:13 | clicking an empty cell changes no state |
| `GridCell.ClickOnFilledCell` | src/GridCell.tsx:13-18 | clicking a filled cell puts the tooltip on it and leaves contents and hovered unchanged. The text reads back as the component's size, which is at least 1 |
| `GridCell.HoverKeepsTooltip` | src/GridCell.tsx:20-22 | hovering leaves contents and tooltip unchanged. The hovered set is empty exactly when the cell is empty |
| `GridCell.HoverHighlightsComponent` | src/GridCell.tsx:21 | after hovering `pos`, a cell is drawn as hovered exactly when it is in the component of `pos`. Hovering any highlighted cell instead gives the same state |
| `GridCell.TooltipShowsComponentSize` | src/GridCell.tsx:23-27 | in a consistent state, the text a cell shows reads back as the size of that cell's component, which is at least 1 |
| `GridCell.ClickKeepsConsistent` | src/GridCell.tsx:13-18 | a click keeps the state consistent: the tooltip sits on a filled cell and shows its component's size |
| `GridCell.HoverKeepsConsistent` | src/GridCell.tsx:20-22 | a hover keeps the state consistent: the hovered set is a component |
| `Decimal.NatToString` | src/GridCell.tsx:16 | `size.toString()` is a non-empty string of decimal digits with no leading zero |
| `Decimal.ParseNatToString` | src/GridCell.tsx:16 | reading the decimal text back gives the number |

## Left out

- `Math.round(Math.random())` (src/Grid.tsx:126) is nondeterministic. The random bits come in as the parameter `coins`, and the model fixes only how they are placed.
- The JSX is presentation only and is not modelled. That covers the table, rows and cells, the CSS classes, the colour pickers and the "Size: n x n" label (src/Grid.tsx:169-198 and the markup of src/GridCell.tsx).
- React's `useState`, `createContext` and Provider/Consumer plumbing are replaced by the explicit class `GridState`. The context's default value with its no-op setters (src/Grid.tsx:144-151) is not modelled. React applies updater functions later and batches them. The model applies each update at once, which is the same when events come one at a time.
- The slider's `parseInt` and its 1-32 range (src/Grid.tsx:171) are UI input handling. `GridState.Resize` takes any `nat` size.
- src/GridColourPicker.tsx and src/PopOverColourPicker.tsx only set CSS custom properties and render inputs. They are not part of this model.
- The string encoding of position keys (src/Grid.tsx:21) is replaced by positions compared by value.
- Cell values that are not integers (fractions, `NaN`) cannot arise from the source's generator or fixture, and are not modelled.
- The source does not bounds-check the start cell (src/Grid.tsx:87) or the handlers' position. Out of range it would read `undefined` or throw. The model requires the position to be in the square, and the grid to be square, because `grid.contents.length` is used as the side length (src/Grid.tsx:60).
- Call-stack depth of the recursive flood fill on large components is not modelled.
