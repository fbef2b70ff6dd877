# Conway's Game of Life grid and its event handler, in Dafny

This project models the core of an interactive Game of Life program. The
model has two parts:

- **The grid engine** (`src/grid.rs`) is a row-major matrix of booleans. It
  can be built all-dead, queried for its rows and columns, and read with a
  total `get` that answers "dead" out of bounds. It can be cleared, resized
  around a fixed top-left origin, and advanced one generation. The next
  generation uses B3/S23 with a bounded, non-wrapping 8-neighbour count.
- **The event handler** (`src/control.rs`, `Control::event`) holds the grid,
  the hovered cell and the drawing state. It reacts to window resizes,
  cursor moves, left-button press and release, and the Space key.

Files:

- `life.dfy`, module `LifeRules`. The model's meaning, stated as pure
  functions over `seq<seq<bool>>`:
  - the rectangular invariant;
  - `Alive`, the total cell read on integer coordinates;
  - `Dead`, `Fit`, `Resized` and `Painted`;
  - `NeighborCount`, defined as the number of live positions among the eight
    Moore offsets;
  - `NextCell` and `NextGen`;
  - lemmas about all of these.
- `grid.dfy`, module `GridEngine`. Class `Grid`, with the `cells` field that
  its methods reassign in place:
  - `Clear` and `SetCell`, the write through `IndexMut`;
  - `Resize`, which truncates or pads the row list and then loops over the
    rows fitting each one;
  - `CountNeighbors`, the chain of guarded reads;
  - `Step`, whose nested loops fill a fresh matrix before swapping it in.

  Each method is proved to produce the matching `LifeRules` function of the
  old cells. `Rows()` is the length of `cells`.
- `control.dfy`, module `Interaction`:
  - the event datatype;
  - `Transition`, a pure reference meaning of one event on a `Snapshot`
    (cells, hover, drawing);
  - one lemma per kind of event;
  - class `Control`, whose `Event` method is proved to match `Transition`.

The handler indexes the grid with a `(row, col)` pair (`src/control.rs:59`,
`67`, `69`). `src/grid.rs` implements only row indexing
(`src/grid.rs:87-94`). The pair index is therefore modelled as `Row(r)[c]`
for reads and `SetCell(r, c, v)` for writes. Both demand an in-bounds cell.

**Latent out-of-bounds press.** A window resize does not clear the hovered
cell (`src/control.rs:36-42`). After a shrink, a left press indexes the grid
at the stale cell (`src/control.rs:66-69`), and that is out of bounds. The
model does not assume this away:

- `Transition` yields `Panicked` exactly in that case.
- `Control.Event` reports it and leaves the state unchanged.
- `ResizeThenPressPanics` proves the failure reachable for every shrink below
  the hovered cell.
- `ShrinkWhileHovering` drives a real `Control` object into it.
- `OnlyResizeEscapes` proves that no other event can move the hover outside
  the grid.

**No wrap mode.** The program's settings carry a `wraparound` flag
(`src/settings.rs:8`), but `step()` takes no argument (`src/grid.rs:68`) and
counts bounded neighbours only, so the model has no wrap mode.

**Inputs the model takes in place of floating point.**

- A resize event carries each dimension as the window ratio already truncated
  toward zero (the `as usize` cast). `ClampDim` then applies the source's
  clamp. A float at or below 1.0 truncates to at most 1, so
  `n <= 1 ==> 1` agrees with the source's `rows <= 1.0 ==> 1`.
- A cursor event carries the already-computed, possibly negative, column
  `hoverX` and row `hoverY`.

## Model

| member | source | states |
|---|---|---|
| LifeRules.Dead | src/grid.rs:13 | the new matrix has exactly `rows` rows of `cols` cells each, is rectangular, reports `cols` columns only when it has rows, and has no live position |
| LifeRules.Fit | src/grid.rs:47 | a row resized to length n keeps its cell at every index both old and new, and is dead at every padded index |
| LifeRules.Resized | src/grid.rs:41-49 | the resized matrix has exactly `rows` rows of `cols` cells, is rectangular, and reports 0 columns when it has no rows |
| LifeRules.Painted | src/grid.rs:92-94 | a write through a row slice keeps every row length and the rectangular invariant, and changes the one position (r, c) only |
| LifeRules.NeighborCount | src/grid.rs:51-65 | the count of live Moore neighbours is at most 8 |
| LifeRules.NextCell | src/grid.rs:75-80 | a cell is live next exactly when it has 3 live neighbours, or is live and has 2 |
| LifeRules.NextGen | src/grid.rs:69-71 | the next generation has the same rows and columns and is rectangular |
| LifeRules.CountLiveBound | src/grid.rs:52-65 | counting over any list of offsets gives at most one per offset |
| LifeRules.CountLiveAgree | src/grid.rs:52-65 | two matrices that agree on every position reached by the offsets give equal counts |
| LifeRules.CountLiveNone | src/grid.rs:52-65 | offsets that reach no live position give a count of 0 |
| LifeRules.NeighborCountUnfold | src/grid.rs:56-63 | the neighbour count is the sum over the eight positions (r±1, c±1), excluding (r, c); negative positions are dead |
| LifeRules.NeighborCountIgnoresSelf | src/grid.rs:54-63 | the count of (r, c) is the same whatever cell (r, c) itself holds |
| LifeRules.DeadNeighborhood | src/grid.rs:52-65 | a cell whose 3x3 neighbourhood is all dead has a count of 0 |
| LifeRules.NextGenRule | src/grid.rs:74-80 | a cell of the next generation is live iff it was dead with exactly 3 live neighbours or live with 2 or 3 |
| LifeRules.NextGenDeaths | src/grid.rs:75-80 | a cell with fewer than 2 or more than 3 live neighbours is dead in the next generation |
| LifeRules.DeadStaysDead | src/grid.rs:68-84 | an all-dead matrix of any shape is its own next generation |
| LifeRules.NextGenLocal | src/grid.rs:72-83 | two generations that agree on the 3x3 neighbourhood of (r, c) give the same next value at (r, c) |
| LifeRules.ResizedCell | src/grid.rs:41-49 | after a resize, a cell inside both the old and the new shape keeps its value, and every other cell is dead |
| LifeRules.ResizedToSameShape | src/grid.rs:44-49 | resizing to the current rows and columns changes nothing |
| LifeRules.ResizedGrowShrink | src/grid.rs:41-49 | growing and then shrinking back to the original shape restores the original matrix |
| GridEngine.Grid.constructor | src/grid.rs:12-14 | `new(R, C)` has R rows, every row of C cells, `cols()` equal to C when R > 0 and 0 otherwise, and every cell dead |
| GridEngine.Grid.Empty | src/grid.rs:5-8 | the default grid has no rows and no columns |
| GridEngine.Grid.Rows | src/grid.rs:17 | `rows()` is the number of rows of the matrix |
| GridEngine.Grid.Cols | src/grid.rs:20-22 | `cols()` is the length of every row, and 0 when there are no rows |
| GridEngine.Grid.Get | src/grid.rs:24-32 | `get` is total: false whenever the position is outside [0, rows) x [0, cols), the stored cell otherwise |
| GridEngine.Grid.Row | src/grid.rs:87-90 | row indexing yields a slice of length `cols()` whose entries are the row's cells |
| GridEngine.Grid.SetCell | src/grid.rs:92-94 | a write through `IndexMut` changes only cell (r, c), keeps the shape and keeps the rectangular invariant |
| GridEngine.Grid.Clear | src/grid.rs:34-39 | `clear` keeps rows and columns, keeps the invariant, and makes every cell dead |
| GridEngine.Grid.Resize | src/grid.rs:44-49 | after `resize(R, C)` the grid is rectangular, has R rows of C cells, and holds `Resized` of the old cells |
| GridEngine.Grid.CountNeighbors | src/grid.rs:52-65 | the guarded chain of eight reads equals the bounded Moore count and is at most 8 |
| GridEngine.Grid.Step | src/grid.rs:68-84 | `step` keeps the shape and the invariant, and its result is `NextGen` of the generation before the step |
| Interaction.ClampDim | src/control.rs:39-40 | a window dimension becomes at least 1: the count itself when it is at least 1, and 1 otherwise |
| Interaction.Transition | src/control.rs:34-81 | every handled event keeps the grid rectangular; the handler panics iff a left press finds a hovered cell outside the grid |
| Interaction.ResizeEvent | src/control.rs:36-42 | a resize gives at least one row and one column, keeps the overlap's cells, and leaves the hover and drawing state unchanged |
| Interaction.ResizeHover | src/control.rs:36-42 | after a resize the hovered cell is inside the grid iff it fits the new shape |
| Interaction.CursorOutside | src/control.rs:51-52 | a cursor outside the grid, negative coordinates included, sets the hover to None and changes nothing else |
| Interaction.CursorInside | src/control.rs:53-61 | a cursor inside the grid hovers that (row, col) and keeps the grid's rows and columns; only a newly entered cell is painted, and only while drawing, with the drawing value |
| Interaction.CursorSameCell | src/control.rs:55 | a cursor on the in-grid cell already hovered changes nothing |
| Interaction.LeftPress | src/control.rs:65-71 | a left press with no hover changes nothing; over an in-grid cell it flips exactly that cell and starts drawing with the new value; over a cell outside the grid it panics |
| Interaction.LeftRelease | src/control.rs:72-74 | a left release sets the drawing state to None and changes nothing else |
| Interaction.SpacePress | src/control.rs:76-80 | Space applies one B3/S23 generation, keeps the shape, and leaves the hover and drawing state unchanged |
| Interaction.OnlyResizeEscapes | src/control.rs:44-80 | every event other than a resize is handled without panic and keeps an in-grid hover in the grid |
| Interaction.ResizeThenPressPanics | src/control.rs:36-69 | a resize that shrinks below the hovered cell, followed by a left press, panics |
| Interaction.Control.constructor | src/control.rs:24-31 | `Control::new(g)` holds grid g with no hover and no drawing state |
| Interaction.Control.Event | src/control.rs:34-81 | handling an event keeps the grid rectangular; it panics iff `Transition` does, leaving the state unchanged, and otherwise reaches exactly `Transition`'s new state |
| Interaction.ShrinkWhileHovering | src/control.rs:36-69 | hovering cell (1, 1) of a 2x2 grid, resizing to 1x1 and pressing the left button panics |

## Left out

- `src/main.rs` is not part of this model. It holds window creation, OpenGL and the event loop, which are I/O plumbing.
- `src/view.rs` is not part of this model. It only reads the grid to draw rectangles in floating point.
- `src/settings.rs` is not part of this model. It holds colour and layout constants. Its `wraparound` flag is read nowhere in the modelled code, so there is no wrap mode.
- The pixel-to-cell arithmetic of `src/control.rs:37-40` and `47-50` is floating point. It is replaced by integer event inputs, described above.
- The stored `cursor_pos` (`src/control.rs:16`, `46`) is left out. Only the cell derived from it matters.
- The library event, button and key types are foreign. They are replaced by the datatypes `Event`, `Button`, `MouseButton` and `Key`. Each event is exactly one of resize, cursor, press, release or other.
- Interaction.Control.Event: a panic is reported as `panicked` with the state unchanged. The model lets a caller keep handling events after a reported panic; the program, having unwound out of its event loop, cannot.
- GridEngine.Grid.CountNeighbors: `r + 1` and `c + 1` are unbounded naturals here, so the model ignores `usize` overflow of those sums.
- The derived `Clone` of the grid is not modelled. Nothing in the core copies a grid.
- Concrete patterns such as the glider or the blinker are not proved. The cell rule they rest on is proved as `LifeRules.NextGenRule`, together with locality and the dead still life.
