/** Interaction: the event handler that resizes the grid with the window,
    tracks the hovered cell, paints while the left button is held and
    advances a generation on Space. */
module Interaction {
  import opened LifeRules
  import opened GridEngine

  datatype Option<T> = None | Some(value: T)

  datatype MouseButton = LeftButton | OtherButton
  datatype Key = SpaceKey | OtherKey
  datatype Button = Mouse(mouse: MouseButton) | Keyboard(key: Key)

  /** One input event. The window size and the cursor position arrive already
      converted to cells: `rows`/`cols` are the per-axis cell counts truncated
      toward zero, `hoverX`/`hoverY` the column and row under the cursor. */
  datatype Event =
    | WindowResized(rows: int, cols: int)
    | CursorMoved(hoverX: int, hoverY: int)
    | Pressed(button: Button)
    | Released(button: Button)
    | Other

  /** The observable state of the handler: cells, hovered (row, col) and the
      value being painted while the left button is held. */
  datatype Snapshot = Snapshot(cells: Cells, hover: Option<(nat, nat)>, drawing: Option<bool>)

  /** What an event does: a new state, or a panic from indexing the grid out of bounds. */
  datatype Reaction = Handled(after: Snapshot) | Panicked

  /** A window dimension in cells: at least one. */
  function ClampDim(n: int): (d: nat)
    ensures d >= 1
    ensures n >= 1 ==> d == n
    ensures n <= 1 ==> d == 1
  {
    if n <= 1 then 1 else n
  }

  /** The hovered cell, if any, lies inside the grid. */
  predicate HoverInGrid(s: Snapshot) {
    s.hover.Some? ==> InGrid(s.cells, s.hover.value.0, s.hover.value.1)
  }

  /** The reference meaning of one event. */
  function Transition(s: Snapshot, e: Event): (r: Reaction)
    requires Rectangular(s.cells)
    ensures r.Handled? ==> Rectangular(r.after.cells)
    ensures r.Panicked? <==>
      e == Pressed(Mouse(LeftButton)) && s.hover.Some? && !InGrid(s.cells, s.hover.value.0, s.hover.value.1)
  {
    match e
    case WindowResized(rows, cols) =>
      Handled(s.(cells := Resized(s.cells, ClampDim(rows), ClampDim(cols))))
    case CursorMoved(x, y) =>
      if x < 0 || y < 0 || x >= ColCount(s.cells) || y >= |s.cells| then
        Handled(s.(hover := None))
      else if s.hover == Some((y as nat, x as nat)) then
        Handled(s)
      else if s.drawing.Some? then
        Handled(s.(hover := Some((y as nat, x as nat)), cells := Painted(s.cells, y as nat, x as nat, s.drawing.value)))
      else
        Handled(s.(hover := Some((y as nat, x as nat))))
    case Pressed(Mouse(LeftButton)) =>
      if s.hover.None? then Handled(s)
      else if !InGrid(s.cells, s.hover.value.0, s.hover.value.1) then Panicked
      else
        var (r, c) := s.hover.value;
        Handled(s.(drawing := Some(!s.cells[r][c]), cells := Painted(s.cells, r, c, !s.cells[r][c])))
    case Released(Mouse(LeftButton)) =>
      Handled(s.(drawing := None))
    case Pressed(Keyboard(SpaceKey)) =>
      Handled(s.(cells := NextGen(s.cells)))
    case _ =>
      Handled(s)
  }

  // ---------------------------------------------------------------------
  // Properties of the transition, one per kind of event

  /** A resize gives at least one row and one column, keeps every cell of the
      overlap, and leaves hover and drawing state alone. */
  lemma ResizeEvent(s: Snapshot, rows: int, cols: int)
    requires Rectangular(s.cells)
    ensures var r := Transition(s, WindowResized(rows, cols));
      r.Handled? &&
      |r.after.cells| == ClampDim(rows) >= 1 && ColCount(r.after.cells) == ClampDim(cols) >= 1 &&
      r.after.hover == s.hover && r.after.drawing == s.drawing &&
      forall i, j :: 0 <= i < |r.after.cells| && 0 <= j < ColCount(r.after.cells) ==>
        (r.after.cells[i][j] <==> Alive(s.cells, i, j))
  {
  }

  /** After a resize the hover is inside the grid exactly when it fits the new shape;
      a shrink can leave it outside. */
  lemma ResizeHover(s: Snapshot, rows: int, cols: int)
    requires Rectangular(s.cells) && s.hover.Some?
    ensures HoverInGrid(Transition(s, WindowResized(rows, cols)).after) <==>
      s.hover.value.0 < ClampDim(rows) && s.hover.value.1 < ClampDim(cols)
  {
  }

  /** A cursor outside the grid (negative coordinates included) clears the hover
      and touches no cell. */
  lemma CursorOutside(s: Snapshot, x: int, y: int)
    requires Rectangular(s.cells)
    requires x < 0 || y < 0 || x >= ColCount(s.cells) || y >= |s.cells|
    ensures Transition(s, CursorMoved(x, y)) == Handled(s.(hover := None))
  {
  }

  /** A cursor inside the grid hovers that cell. Entering a new cell while
      drawing paints exactly that cell; otherwise no cell changes. */
  lemma CursorInside(s: Snapshot, x: int, y: int)
    requires Rectangular(s.cells)
    requires 0 <= x < ColCount(s.cells) && 0 <= y < |s.cells|
    ensures var r := Transition(s, CursorMoved(x, y));
      r.Handled? && r.after.hover == Some((y as nat, x as nat)) && HoverInGrid(r.after) &&
      r.after.drawing == s.drawing &&
      |r.after.cells| == |s.cells| && ColCount(r.after.cells) == ColCount(s.cells) &&
      forall i, j :: Alive(r.after.cells, i, j) ==
        if i == y && j == x && s.hover != Some((y as nat, x as nat)) && s.drawing.Some?
        then s.drawing.value else Alive(s.cells, i, j)
  {
  }

  /** A cursor on the cell already hovered changes nothing. */
  lemma CursorSameCell(s: Snapshot, x: int, y: int)
    requires Rectangular(s.cells)
    requires 0 <= x && 0 <= y && s.hover == Some((y as nat, x as nat))
    requires HoverInGrid(s)
    ensures Transition(s, CursorMoved(x, y)) == Handled(s)
  {
  }

  /** A left press over a cell inside the grid flips exactly that cell and starts
      drawing with its new value; with no hover it does nothing; with a hover
      outside the grid it panics. */
  lemma LeftPress(s: Snapshot)
    requires Rectangular(s.cells)
    ensures var r := Transition(s, Pressed(Mouse(LeftButton)));
      match s.hover
      case None => r == Handled(s)
      case Some((hr, hc)) =>
        if InGrid(s.cells, hr, hc) then
          r.Handled? && r.after.hover == s.hover && r.after.drawing == Some(!s.cells[hr][hc]) &&
          |r.after.cells| == |s.cells| && ColCount(r.after.cells) == ColCount(s.cells) &&
          forall i, j :: Alive(r.after.cells, i, j) ==
            if i == hr && j == hc then !Alive(s.cells, i, j) else Alive(s.cells, i, j)
        else r == Panicked
  {
  }

  /** A left release stops drawing and changes nothing else. */
  lemma LeftRelease(s: Snapshot)
    requires Rectangular(s.cells)
    ensures Transition(s, Released(Mouse(LeftButton))) == Handled(Snapshot(s.cells, s.hover, None))
  {
  }

  /** Space advances one generation by B3/S23 and changes nothing else. */
  lemma SpacePress(s: Snapshot)
    requires Rectangular(s.cells)
    ensures var r := Transition(s, Pressed(Keyboard(SpaceKey)));
      r.Handled? && r.after.hover == s.hover && r.after.drawing == s.drawing &&
      |r.after.cells| == |s.cells| && ColCount(r.after.cells) == ColCount(s.cells) &&
      forall i: nat, j: nat :: InGrid(s.cells, i, j) ==>
        (r.after.cells[i][j] <==> NextCell(s.cells[i][j], NeighborCount(s.cells, i, j)))
  {
  }

  /** Every event but a resize keeps the hover inside the grid, so only a resize
      can set up the out-of-bounds press. */
  lemma OnlyResizeEscapes(s: Snapshot, e: Event)
    requires Rectangular(s.cells) && HoverInGrid(s) && !e.WindowResized?
    ensures Transition(s, e).Handled? && HoverInGrid(Transition(s, e).after)
  {
    match e
    case CursorMoved(x, y) =>
      if 0 <= x < ColCount(s.cells) && 0 <= y < |s.cells| {
        CursorInside(s, x, y);
      }
    case Pressed(Keyboard(SpaceKey)) =>
      SpacePress(s);
    case _ =>
  }

  /** Hovering a cell, shrinking the window below it and pressing the left
      button panics. */
  lemma ResizeThenPressPanics(s: Snapshot, rows: int, cols: int)
    requires Rectangular(s.cells) && s.hover.Some?
    requires s.hover.value.0 >= ClampDim(rows) || s.hover.value.1 >= ClampDim(cols)
    ensures Transition(Transition(s, WindowResized(rows, cols)).after, Pressed(Mouse(LeftButton))) == Panicked
  {
    ResizeHover(s, rows, cols);
  }

  // ---------------------------------------------------------------------
  // The handler object

  class Control {
    /** The grid, owned by the handler and updated in place. */
    const grid: Grid
    /** The (row, col) of the cell under the cursor. */
    var hoverCell: Option<(nat, nat)>
    /** The value painted while the left button is held; None when it is not. */
    var drawingState: Option<bool>

    ghost predicate Valid()
      reads this, grid
    {
      grid.Valid()
    }

    function State(): (s: Snapshot)
      reads this, grid
    {
      Snapshot(grid.cells, hoverCell, drawingState)
    }

    /** A handler over g with nothing hovered and nothing being drawn. */
    constructor (g: Grid)
      requires g.Valid()
      ensures Valid() && grid == g
      ensures hoverCell == None && drawingState == None
      ensures State() == Snapshot(g.cells, None, None)
    {
      grid := g;
      hoverCell := None;
      drawingState := None;
    }

    /** Handles one event; `panicked` reports an out-of-bounds grid index, in
        which case nothing has changed. */
    method Event(e: Event) returns (panicked: bool)
      requires Valid()
      modifies this, grid
      ensures Valid()
      ensures panicked <==> Transition(old(State()), e).Panicked?
      ensures panicked ==> State() == old(State())
      ensures !panicked ==> Transition(old(State()), e) == Handled(State())
    {
      panicked := false;
      match e
      case WindowResized(rows, cols) =>
        grid.Resize(ClampDim(rows), ClampDim(cols));
      case CursorMoved(x, y) =>
        if x < 0 || y < 0 || x >= grid.Cols() || y >= grid.Rows() {
          hoverCell := None;
        } else {
          var cell := (y as nat, x as nat);
          if hoverCell != Some(cell) {
            hoverCell := Some(cell);
            if drawingState.Some? {
              grid.SetCell(cell.0, cell.1, drawingState.value);
            }
          }
        }
      case Pressed(Mouse(LeftButton)) =>
        if hoverCell.Some? {
          var (hr, hc) := hoverCell.value;
          if hr >= grid.Rows() || hc >= grid.Cols() {
            panicked := true;
            return;
          }
          var state := !grid.Row(hr)[hc];
          drawingState := Some(state);
          grid.SetCell(hr, hc, state);
        }
      case Released(Mouse(LeftButton)) =>
        drawingState := None;
      case Pressed(Keyboard(SpaceKey)) =>
        grid.Step();
      case _ =>
    }
  }

  /** The latent failure, reached through the handler object: hover the
      bottom-right cell of a 2 x 2 grid, shrink the window to one cell, press. */
  method ShrinkWhileHovering() returns (panicked: bool)
    ensures panicked
  {
    var g := new Grid(2, 2);
    var ctl := new Control(g);
    var p := ctl.Event(CursorMoved(1, 1));
    assert ctl.State().hover == Some((1, 1));
    p := ctl.Event(WindowResized(1, 1));
    assert ctl.State().hover == Some((1, 1)) && |ctl.State().cells| == 1;
    panicked := ctl.Event(Pressed(Mouse(LeftButton)));
  }
}
