/** The grid engine: a Game of Life state held as a row-major matrix that
    its methods replace or update in place. */
module GridEngine {
  import opened LifeRules

  class Grid {
    /** Row-major cell states; `true` is a live cell. */
    var cells: Cells

    /** The rectangular invariant, kept by every method. */
    ghost predicate Valid()
      reads this
    {
      Rectangular(cells)
    }

    /** A rows x cols grid with every cell dead. */
    constructor (rows: nat, cols: nat)
      ensures Valid()
      ensures cells == Dead(rows, cols)
      ensures Rows() == rows && Cols() == (if rows == 0 then 0 else cols)
      ensures forall r: nat, c: nat :: !Get(r, c)
    {
      cells := Dead(rows, cols);
    }

    /** The default grid: no rows and no columns. */
    constructor Empty()
      ensures Valid() && cells == [] && Rows() == 0 && Cols() == 0
    {
      cells := [];
    }

    /** The number of rows of the matrix. */
    function Rows(): (n: nat)
      reads this
      ensures n == |cells|
    {
      |cells|
    }

    /** The common length of the rows; 0 when there are no rows. */
    function Cols(): (n: nat)
      reads this
      requires Valid()
      ensures forall i :: 0 <= i < |cells| ==> |cells[i]| == n
      ensures |cells| == 0 ==> n == 0
    {
      if Rows() == 0 then 0 else |cells[0]|
    }

    /** Total read: a position out of bounds is dead, the stored cell otherwise. */
    function Get(r: nat, c: nat): (alive: bool)
      reads this
      requires Valid()
      ensures alive == Alive(cells, r, c)
      ensures !InGrid(cells, r, c) ==> !alive
    {
      if r >= Rows() || c >= Cols() then false else cells[r][c]
    }

    /** Row indexing: the whole row r, a slice of length Cols(). */
    function Row(r: nat): (row: seq<bool>)
      reads this
      requires Valid() && r < Rows()
      ensures |row| == Cols()
      ensures forall c :: 0 <= c < |row| ==> row[c] == Get(r, c)
    {
      cells[r]
    }

    /** A write through a row slice: only (r, c) changes, and the row keeps its length. */
    method SetCell(r: nat, c: nat, v: bool)
      requires Valid() && r < Rows() && c < Cols()
      modifies this
      ensures Valid()
      ensures cells == Painted(old(cells), r, c, v)
      ensures Rows() == old(Rows()) && Cols() == old(Cols())
    {
      cells := cells[r := cells[r][c := v]];
    }

    /** Every cell dead, the shape unchanged. */
    method Clear()
      requires Valid()
      modifies this
      ensures Valid()
      ensures cells == Dead(old(Rows()), old(Cols()))
      ensures Rows() == old(Rows()) && Cols() == old(Cols())
      ensures forall r: nat, c: nat :: !Get(r, c)
    {
      var rows := Rows();
      var cols := Cols();
      cells := Dead(rows, cols);
    }

    /** Truncate or pad the row list, then truncate or pad every row. */
    method Resize(rows: nat, cols: nat)
      requires Valid()
      modifies this
      ensures Valid()
      ensures cells == Resized(old(cells), rows, cols)
      ensures Rows() == rows && Cols() == (if rows == 0 then 0 else cols)
    {
      ghost var before := cells;
      cells := if rows <= |cells| then cells[..rows] else cells + Dead(rows - |cells|, cols);
      for i := 0 to |cells|
        invariant |cells| == rows
        invariant forall k :: 0 <= k < i ==> cells[k] == Resized(before, rows, cols)[k]
        invariant forall k :: i <= k < rows ==>
          cells[k] == if k < |before| then before[k] else seq(cols, _ => false)
      {
        cells := cells[i := Fit(cells[i], cols)];
      }
      assert forall k :: 0 <= k < rows ==> cells[k] == Resized(before, rows, cols)[k];
    }

    /** The bounded eight-neighbour count, as a chain of guarded reads that
        never forms a negative index. */
    method CountNeighbors(r: nat, c: nat) returns (count: nat)
      requires Valid()
      ensures count == NeighborCount(cells, r, c)
      ensures count <= 8
    {
      NeighborCountUnfold(cells, r, c);
      count := 0;
      var firstRow := r == 0;
      var firstCol := c == 0;
      if !firstRow && !firstCol && Get(r - 1, c - 1) { count := count + 1; }
      if !firstRow && Get(r - 1, c) { count := count + 1; }
      if !firstRow && Get(r - 1, c + 1) { count := count + 1; }
      if !firstCol && Get(r, c - 1) { count := count + 1; }
      if !firstCol && Get(r + 1, c - 1) { count := count + 1; }
      if Get(r + 1, c) { count := count + 1; }
      if Get(r, c + 1) { count := count + 1; }
      if Get(r + 1, c + 1) { count := count + 1; }
    }

    /** Builds the next generation into a fresh matrix, reading only the
        current one, and then replaces the current one with it. */
    method Step()
      requires Valid()
      modifies this
      ensures Valid()
      ensures cells == NextGen(old(cells))
      ensures Rows() == old(Rows()) && Cols() == old(Cols())
    {
      var rows := Rows();
      var cols := Cols();
      ghost var next := NextGen(cells);
      var newCells := Dead(rows, cols);
      for r := 0 to rows
        invariant cells == old(cells)
        invariant |newCells| == rows
        invariant forall i :: 0 <= i < r ==> newCells[i] == next[i]
        invariant forall i :: r <= i < rows ==> |newCells[i]| == cols
      {
        for c := 0 to cols
          invariant cells == old(cells)
          invariant |newCells| == rows && |newCells[r]| == cols
          invariant forall i :: 0 <= i < r ==> newCells[i] == next[i]
          invariant forall i :: r < i < rows ==> |newCells[i]| == cols
          invariant forall j :: 0 <= j < c ==> newCells[r][j] == next[r][j]
        {
          var count := CountNeighbors(r, c);
          newCells := newCells[r := newCells[r][c := NextCell(cells[r][c], count)]];
        }
        assert newCells[r] == next[r];
      }
      cells := newCells;
    }
  }
}
