/**
 * The event handlers of src/GridCell.tsx and the rule for which cell
 * shows the tooltip text.
 */
module GridCell {
  import opened Wrappers
  import opened Grid
  import opened Connectivity
  import opened Decimal
  import opened GridComponent

  /**
   * The state after a click on `pos`: a filled cell gets the tooltip, with
   * the size of its component as text; a click on an empty cell changes nothing.
   */
  ghost function Clicked(g: GridData, pos: Position): GridData {
    if Filled(g.contents, pos)
    then WithTooltip(g, Tooltip(pos, NatToString(|Component(g.contents, pos)|)))
    else g
  }

  /** The state after the pointer enters `pos`: its component, possibly empty, is highlighted. */
  ghost function MousedOver(g: GridData, pos: Position): GridData {
    WithHovered(g, Component(g.contents, pos))
  }

  /** `onClick`. */
  method OnClick(state: GridState, pos: Position)
    requires IsSquare(state.grid.contents) && InSquare(pos, |state.grid.contents|)
    modifies state
    ensures state.grid == Clicked(old(state.grid), pos)
  {
    if state.grid.contents[pos.row][pos.col] != 0 {
      var connected := GetAllConnected(state.grid.contents, pos);
      state.SetTooltip(Tooltip(pos, NatToString(|connected|)));
    }
  }

  /** `onMouseOver`. */
  method OnMouseOver(state: GridState, pos: Position)
    requires IsSquare(state.grid.contents) && InSquare(pos, |state.grid.contents|)
    modifies state
    ensures state.grid == MousedOver(old(state.grid), pos)
  {
    var connected := GetAllConnected(state.grid.contents, pos);
    state.SetHovered(connected);
  }

  /** The text a cell shows: the tooltip's, when the tooltip sits on that very cell. */
  function TooltipText(g: GridData, pos: Position): (text: Option<string>)
    ensures text.Some? <==> g.tooltip.Some? && g.tooltip.value.pos == pos
    ensures text.Some? ==> text.value == g.tooltip.value.text
  {
    if g.tooltip.Some? && g.tooltip.value.pos.row == pos.row && g.tooltip.value.pos.col == pos.col
    then Some(g.tooltip.value.text)
    else None
  }

  /** At most one cell shows text at a time. */
  lemma TooltipOnOneCell(g: GridData, p: Position, q: Position)
    requires TooltipText(g, p).Some? && TooltipText(g, q).Some?
    ensures p == q
  {
  }

  /** Clicking an empty cell changes no state. */
  lemma ClickOnEmptyCell(g: GridData, pos: Position)
    requires !Filled(g.contents, pos)
    ensures Clicked(g, pos) == g
  {
  }

  /**
   * Clicking a filled cell puts the tooltip on it, showing a count of at
   * least one (the cell is in its own component), and changes nothing else.
   */
  lemma ClickOnFilledCell(g: GridData, pos: Position)
    requires IsSquare(g.contents) && Filled(g.contents, pos)
    ensures Clicked(g, pos).contents == g.contents && Clicked(g, pos).hovered == g.hovered
    ensures Clicked(g, pos).tooltip.Some? && Clicked(g, pos).tooltip.value.pos == pos
    ensures ParseDecimal(Clicked(g, pos).tooltip.value.text) == |Component(g.contents, pos)| >= 1
  {
    FilledInSquare(g.contents, pos);
    ComponentStart(g.contents, pos);
    ParseNatToString(|Component(g.contents, pos)|);
  }

  /** Hovering any cell leaves the contents and the tooltip alone; an empty cell clears the highlight. */
  lemma HoverKeepsTooltip(g: GridData, pos: Position)
    requires IsSquare(g.contents) && InSquare(pos, |g.contents|)
    ensures MousedOver(g, pos).contents == g.contents && MousedOver(g, pos).tooltip == g.tooltip
    ensures MousedOver(g, pos).hovered == {} <==> !Filled(g.contents, pos)
  {
    ComponentStart(g.contents, pos);
  }

  /**
   * After hovering `pos`, a cell is drawn as hovered exactly when it is in
   * the component of `pos`, and hovering any highlighted cell instead would
   * highlight the very same cells.
   */
  lemma HoverHighlightsComponent(g: GridData, pos: Position, p: Position)
    requires IsSquare(g.contents) && InSquare(pos, |g.contents|) && InSquare(p, |g.contents|)
    ensures ClassName(MousedOver(g, pos), p) == "hovered" <==> p in Component(g.contents, pos)
    ensures p in MousedOver(g, pos).hovered ==> MousedOver(g, p) == MousedOver(g, pos)
  {
    if p in Component(g.contents, pos) {
      ComponentOfMember(g.contents, pos, p);
    }
  }

  /**
   * In a consistent state, the text a cell shows reads back as the size of
   * that cell's component, which is at least one.
   */
  lemma TooltipShowsComponentSize(g: GridData, p: Position, t: string)
    requires Consistent(g) && TooltipText(g, p) == Some(t)
    ensures ParseDecimal(t) == |Component(g.contents, p)| >= 1
  {
    FilledInSquare(g.contents, p);
    ComponentStart(g.contents, p);
    ParseNatToString(|Component(g.contents, p)|);
  }

  lemma ClickKeepsConsistent(g: GridData, pos: Position)
    requires Consistent(g) && InSquare(pos, |g.contents|)
    ensures Consistent(Clicked(g, pos))
  {
  }

  lemma HoverKeepsConsistent(g: GridData, pos: Position)
    requires Consistent(g) && InSquare(pos, |g.contents|)
    ensures Consistent(MousedOver(g, pos))
  {
  }
}
