/** The pure meaning of a Game of Life grid: a row-major matrix of cells,
    its bounded (non-wrapping) Moore neighbourhood, the B3/S23 rule and
    the origin-preserving resize. The class in grid.dfy is proved against
    these definitions. */
module LifeRules {

  /** Row-major cell states; `true` is a live cell. */
  type Cells = seq<seq<bool>>

  /** Number of columns: the length of the first row, 0 when there are no rows. */
  function ColCount(cells: Cells): (n: nat) {
    if |cells| == 0 then 0 else |cells[0]|
  }

  /** The rectangular invariant: every row is as long as the first. */
  predicate Rectangular(cells: Cells) {
    forall i :: 0 <= i < |cells| ==> |cells[i]| == ColCount(cells)
  }

  /** A position is live when it is inside the matrix and its cell is true.
      Every position outside it, negative ones included, is dead. */
  predicate Alive(cells: Cells, r: int, c: int) {
    0 <= r < |cells| && 0 <= c < |cells[r]| && cells[r][c]
  }

  /** Whether (r, c) lies in [0, rows) x [0, cols). */
  predicate InGrid(cells: Cells, r: nat, c: nat) {
    r < |cells| && c < ColCount(cells)
  }

  /** A rows x cols matrix of dead cells. */
  function Dead(rows: nat, cols: nat): (d: Cells)
    ensures |d| == rows && Rectangular(d)
    ensures forall i :: 0 <= i < rows ==> |d[i]| == cols
    ensures ColCount(d) == if rows == 0 then 0 else cols
    ensures forall r, c :: !Alive(d, r, c)
  {
    seq(rows, _ => seq(cols, _ => false))
  }

  /** One row truncated or padded with dead cells to length n. */
  function Fit(row: seq<bool>, n: nat): (f: seq<bool>)
    ensures |f| == n
    ensures forall j :: 0 <= j < n ==> f[j] == (j < |row| && row[j])
  {
    if n <= |row| then row[..n] else row + seq(n - |row|, _ => false)
  }

  /** The matrix resized to rows x cols around the fixed origin (0, 0):
      every cell of the new shape holds what the old matrix had there,
      and is dead where the old matrix had nothing. */
  function Resized(cells: Cells, rows: nat, cols: nat): (g: Cells)
    ensures |g| == rows && Rectangular(g)
    ensures forall i :: 0 <= i < rows ==> |g[i]| == cols
    ensures ColCount(g) == if rows == 0 then 0 else cols
  {
    seq(rows, i => seq(cols, j => Alive(cells, i, j)))
  }

  /** The matrix with the one cell (r, c) set to v. */
  function Painted(cells: Cells, r: nat, c: nat, v: bool): (g: Cells)
    requires r < |cells| && c < |cells[r]|
    ensures |g| == |cells| && ColCount(g) == ColCount(cells)
    ensures forall i :: 0 <= i < |g| ==> |g[i]| == |cells[i]|
    ensures Rectangular(cells) ==> Rectangular(g)
    ensures forall i, j :: Alive(g, i, j) == if i == r && j == c then v else Alive(cells, i, j)
  {
    cells[r := cells[r][c := v]]
  }

  /** The eight Moore-neighbourhood offsets, in reading order; (0, 0) is not among them. */
  const MOORE_OFFSETS: seq<(int, int)> :=
    [(-1, -1), (-1, 0), (-1, 1), (0, -1), (0, 1), (1, -1), (1, 0), (1, 1)]

  function Bit(b: bool): (n: nat) {
    if b then 1 else 0
  }

  /** How many of the positions (r, c) + offs[k] are live. */
  function CountLive(cells: Cells, r: int, c: int, offs: seq<(int, int)>): (n: nat)
    decreases |offs|
  {
    if offs == [] then 0
    else Bit(Alive(cells, r + offs[0].0, c + offs[0].1)) + CountLive(cells, r, c, offs[1..])
  }

  /** The number of live cells among the eight bounded Moore neighbours of (r, c). */
  function NeighborCount(cells: Cells, r: int, c: int): (n: nat)
    ensures n <= 8
  {
    CountLiveBound(cells, r, c, MOORE_OFFSETS);
    CountLive(cells, r, c, MOORE_OFFSETS)
  }

  /** B3/S23: the next state of a cell that is `alive` and has n live neighbours. */
  function NextCell(alive: bool, n: nat): (next: bool)
    ensures next <==> n == 3 || (alive && n == 2)
  {
    match (alive, n)
    case (false, 3) => true
    case (true, 2) => true
    case (true, 3) => true
    case _ => false
  }

  /** The next generation: every cell computed from the current matrix only. */
  function NextGen(cells: Cells): (g: Cells)
    requires Rectangular(cells)
    ensures |g| == |cells| && ColCount(g) == ColCount(cells) && Rectangular(g)
  {
    seq(|cells|, r requires 0 <= r < |cells| =>
      seq(ColCount(cells), c requires 0 <= c < ColCount(cells) =>
        NextCell(cells[r][c], NeighborCount(cells, r, c))))
  }

  // ---------------------------------------------------------------------
  // Neighbour counting

  lemma {:induction false} CountLiveBound(cells: Cells, r: int, c: int, offs: seq<(int, int)>)
    ensures CountLive(cells, r, c, offs) <= |offs|
    decreases |offs|
  {
    if offs != [] {
      CountLiveBound(cells, r, c, offs[1..]);
    }
  }

  /** Two matrices that agree on every position the offsets reach give the same count. */
  lemma {:induction false} CountLiveAgree(a: Cells, b: Cells, r: int, c: int, offs: seq<(int, int)>)
    requires forall k :: 0 <= k < |offs| ==>
      Alive(a, r + offs[k].0, c + offs[k].1) == Alive(b, r + offs[k].0, c + offs[k].1)
    ensures CountLive(a, r, c, offs) == CountLive(b, r, c, offs)
    decreases |offs|
  {
    if offs != [] {
      assert Alive(a, r + offs[0].0, c + offs[0].1) == Alive(b, r + offs[0].0, c + offs[0].1);
      forall k | 0 <= k < |offs[1..]|
        ensures Alive(a, r + offs[1..][k].0, c + offs[1..][k].1) == Alive(b, r + offs[1..][k].0, c + offs[1..][k].1)
      {
        assert offs[1..][k] == offs[k + 1];
      }
      CountLiveAgree(a, b, r, c, offs[1..]);
    }
  }

  /** No offset reaching a live position gives a count of zero. */
  lemma {:induction false} CountLiveNone(cells: Cells, r: int, c: int, offs: seq<(int, int)>)
    requires forall k :: 0 <= k < |offs| ==> !Alive(cells, r + offs[k].0, c + offs[k].1)
    ensures CountLive(cells, r, c, offs) == 0
    decreases |offs|
  {
    if offs != [] {
      assert !Alive(cells, r + offs[0].0, c + offs[0].1);
      forall k | 0 <= k < |offs[1..]|
        ensures !Alive(cells, r + offs[1..][k].0, c + offs[1..][k].1)
      {
        assert offs[1..][k] == offs[k + 1];
      }
      CountLiveNone(cells, r, c, offs[1..]);
    }
  }

  /** The neighbour count written out as the eight positions around (r, c). */
  lemma NeighborCountUnfold(cells: Cells, r: int, c: int)
    ensures NeighborCount(cells, r, c) ==
      Bit(Alive(cells, r - 1, c - 1)) + Bit(Alive(cells, r - 1, c)) + Bit(Alive(cells, r - 1, c + 1)) +
      Bit(Alive(cells, r, c - 1)) + Bit(Alive(cells, r, c + 1)) +
      Bit(Alive(cells, r + 1, c - 1)) + Bit(Alive(cells, r + 1, c)) + Bit(Alive(cells, r + 1, c + 1))
  {
  }

  /** The count of (r, c) does not depend on the cell (r, c) itself. */
  lemma NeighborCountIgnoresSelf(cells: Cells, r: nat, c: nat, v: bool)
    requires r < |cells| && c < |cells[r]|
    ensures NeighborCount(Painted(cells, r, c, v), r, c) == NeighborCount(cells, r, c)
  {
    var g := Painted(cells, r, c, v);
    forall k | 0 <= k < |MOORE_OFFSETS|
      ensures Alive(g, r + MOORE_OFFSETS[k].0, c + MOORE_OFFSETS[k].1)
           == Alive(cells, r + MOORE_OFFSETS[k].0, c + MOORE_OFFSETS[k].1)
    {
      assert MOORE_OFFSETS[k] != (0, 0);
    }
    CountLiveAgree(g, cells, r, c, MOORE_OFFSETS);
  }

  /** A cell whose neighbourhood is all dead has a count of zero. */
  lemma DeadNeighborhood(cells: Cells, r: int, c: int)
    requires forall i, j :: r - 1 <= i <= r + 1 && c - 1 <= j <= c + 1 ==> !Alive(cells, i, j)
    ensures NeighborCount(cells, r, c) == 0
  {
  }

  // ---------------------------------------------------------------------
  // The generation step

  /** B3/S23 spelled out for a cell of the next generation. */
  lemma NextGenRule(cells: Cells, r: nat, c: nat)
    requires Rectangular(cells) && InGrid(cells, r, c)
    ensures var n := NeighborCount(cells, r, c);
      NextGen(cells)[r][c] <==> (!cells[r][c] && n == 3) || (cells[r][c] && (n == 2 || n == 3))
  {
  }

  /** A live cell with fewer than two or more than three live neighbours dies;
      a dead cell with other than three stays dead. */
  lemma NextGenDeaths(cells: Cells, r: nat, c: nat)
    requires Rectangular(cells) && InGrid(cells, r, c)
    requires NeighborCount(cells, r, c) < 2 || NeighborCount(cells, r, c) > 3
    ensures !NextGen(cells)[r][c]
  {
  }

  /** An all-dead matrix is a still life. */
  lemma DeadStaysDead(rows: nat, cols: nat)
    ensures NextGen(Dead(rows, cols)) == Dead(rows, cols)
  {
    var d := Dead(rows, cols);
    var g := NextGen(d);
    forall r, c | 0 <= r < rows && 0 <= c < ColCount(d)
      ensures g[r][c] == d[r][c]
    {
      DeadNeighborhood(d, r, c);
    }
    forall r | 0 <= r < rows
      ensures g[r] == d[r]
    {
    }
  }

  /** The cell of the next generation depends only on the cell itself and its
      eight neighbours in the current one. */
  lemma NextGenLocal(a: Cells, b: Cells, r: nat, c: nat)
    requires Rectangular(a) && Rectangular(b) && InGrid(a, r, c) && InGrid(b, r, c)
    requires forall i, j :: r - 1 <= i <= r + 1 && c - 1 <= j <= c + 1 ==> Alive(a, i, j) == Alive(b, i, j)
    ensures NextGen(a)[r][c] == NextGen(b)[r][c]
  {
    forall k | 0 <= k < |MOORE_OFFSETS|
      ensures Alive(a, r + MOORE_OFFSETS[k].0, c + MOORE_OFFSETS[k].1)
           == Alive(b, r + MOORE_OFFSETS[k].0, c + MOORE_OFFSETS[k].1)
    {
      var (dr, dc) := MOORE_OFFSETS[k];
      assert -1 <= dr <= 1 && -1 <= dc <= 1;
    }
    CountLiveAgree(a, b, r, c, MOORE_OFFSETS);
    assert Alive(a, r, c) == Alive(b, r, c);
  }

  // ---------------------------------------------------------------------
  // Resizing

  /** Inside the overlap of old and new shape a cell keeps its value; every other
      cell of the new shape is dead. */
  lemma ResizedCell(cells: Cells, rows: nat, cols: nat, r: nat, c: nat)
    requires Rectangular(cells) && r < rows && c < cols
    ensures Resized(cells, rows, cols)[r][c] ==
      if r < |cells| && c < ColCount(cells) then cells[r][c] else false
  {
  }

  /** Resizing to the current shape changes nothing. */
  lemma ResizedToSameShape(cells: Cells)
    requires Rectangular(cells)
    ensures Resized(cells, |cells|, ColCount(cells)) == cells
  {
    var g := Resized(cells, |cells|, ColCount(cells));
    forall i | 0 <= i < |cells|
      ensures g[i] == cells[i]
    {
    }
  }

  /** Growing and then shrinking back to the original shape restores the matrix:
      growth pads with dead cells only and loses nothing. */
  lemma ResizedGrowShrink(cells: Cells, bigRows: nat, bigCols: nat)
    requires Rectangular(cells)
    requires |cells| <= bigRows && ColCount(cells) <= bigCols
    ensures Resized(Resized(cells, bigRows, bigCols), |cells|, ColCount(cells)) == cells
  {
    var big := Resized(cells, bigRows, bigCols);
    var g := Resized(big, |cells|, ColCount(cells));
    forall i | 0 <= i < |cells|
      ensures g[i] == cells[i]
    {
      forall j | 0 <= j < ColCount(cells)
        ensures g[i][j] == cells[i][j]
      {
        ResizedCell(big, |cells|, ColCount(cells), i, j);
        ResizedCell(cells, bigRows, bigCols, i, j);
      }
    }
  }
}
