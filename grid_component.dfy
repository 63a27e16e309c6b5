/**
 * The state the `Grid` component of src/Grid.tsx keeps with `useState`,
 * and the transitions it makes on it itself: the two setters it hands to
 * the cells, the reset when the pointer leaves the table, and a fresh grid
 * when the size slider moves.
 */
module GridComponent {
  import opened Wrappers
  import opened Grid
  import opened Connectivity
  import opened Decimal

  /**
   * What the page's handlers keep true of the state: the grid is square,
   * the hovered set is empty or some cell's component, and a tooltip sits
   * on a filled cell and shows the size of that cell's component.
   */
  ghost predicate Consistent(g: GridData) {
    && IsSquare(g.contents)
    && (g.hovered == {} || exists p :: InSquare(p, |g.contents|) && g.hovered == Component(g.contents, p))
    && (g.tooltip.Some? ==>
          && Filled(g.contents, g.tooltip.value.pos)
          && g.tooltip.value.text == NatToString(|Component(g.contents, g.tooltip.value.pos)|))
  }

  class GridState {
    var grid: GridData

    /** The page starts on the fixture grid with nothing hovered and no tooltip. */
    constructor ()
      ensures grid == GridData(InitialGrid, {}, None)
      ensures Consistent(grid)
    {
      grid := GridData(InitialGrid, {}, None);
    }

    /** `setTooltip`: replaces the tooltip, nothing else. */
    method SetTooltip(tooltip: Tooltip)
      modifies this
      ensures grid == WithTooltip(old(grid), tooltip)
    {
      grid := WithTooltip(grid, tooltip);
    }

    /** `setHovered`: replaces the hovered set, nothing else. */
    method SetHovered(hovered: set<Position>)
      modifies this
      ensures grid == WithHovered(old(grid), hovered)
    {
      grid := WithHovered(grid, hovered);
    }

    /** The table's `onMouseLeave`: nothing is hovered any more; the tooltip stays. */
    method MouseLeave()
      modifies this
      ensures grid == WithHovered(old(grid), {})
      ensures Consistent(old(grid)) ==> Consistent(grid)
    {
      SetHovered({});
    }

    /**
     * The size slider's `onChange`: a freshly generated grid replaces the
     * whole state, so the hovered set and the tooltip are both cleared.
     */
    method Resize(size: nat, coins: seq<bool>)
      requires |coins| == size * size
      modifies this
      ensures |grid.contents| == size && IsSquare(grid.contents)
      ensures forall i, j :: 0 <= i < size && 0 <= j < size ==>
        grid.contents[i][j] == DrawnCell(size, coins, i, j)
      ensures grid.hovered == {} && grid.tooltip == None
      ensures Consistent(grid)
    {
      grid := GenerateGrid(size, coins);
    }
  }
}
