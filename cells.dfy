// The cell and grid types shared by src/pages/MinesweeperViewModel.ts and
// src/pages/MinesweeperContext.ts (their type declarations, lines 5-24, are
// identical), the empty grid, and the cell counts the engines keep.

module Cells {
  import opened RepeatUtil

  /** CellContents: a mine, or a free cell with the number of mines around it. */
  datatype Contents = Mine | Free(neighbors: nat)

  /** CellState */
  datatype CellState = Closed | Flagged | Open

  /** CellInfo */
  datatype Cell = Cell(contents: Contents, state: CellState)

  /** CellInfo[][]: a list of rows, each a list of cells. */
  type Grid = seq<seq<Cell>>

  predicate IsMine(c: Cell) { c.contents.Mine? }
  predicate IsClosed(c: Cell) { c.state == Closed }
  predicate IsFlagged(c: Cell) { c.state == Flagged }
  predicate IsNotOpen(c: Cell) { c.state != Open }

  /** `grid[0].length`, taken as 0 for a grid without rows. */
  function Cols(g: Grid): nat
  {
    if |g| == 0 then 0 else |g[0]|
  }

  ghost predicate IsGrid(g: Grid, rows: int, cols: int)
  {
    |g| == rows && forall i :: 0 <= i < |g| ==> |g[i]| == cols
  }

  ghost predicate Rectangular(g: Grid)
  {
    IsGrid(g, |g|, Cols(g))
  }

  predicate InBounds(g: Grid, i: int, j: int)
  {
    0 <= i < |g| && 0 <= j < Cols(g)
  }

  ghost predicate SameShape(g: Grid, h: Grid)
  {
    Rectangular(g) && Rectangular(h) && |g| == |h| && Cols(g) == Cols(h)
  }

  /** h holds the same contents as g, cell by cell. */
  ghost predicate SameContents(g: Grid, h: Grid)
  {
    SameShape(g, h) &&
    forall i, j :: InBounds(g, i, j) ==> h[i][j].contents == g[i][j].contents
  }

  /** h holds the same closed/flagged/open states as g, cell by cell. */
  ghost predicate SameStates(g: Grid, h: Grid)
  {
    SameShape(g, h) &&
    forall i, j :: InBounds(g, i, j) ==> h[i][j].state == g[i][j].state
  }

  /** Every cell keeps its state, except closed cells that may have become open. */
  ghost predicate StatesOnlyOpen(g: Grid, h: Grid)
  {
    SameShape(g, h) &&
    forall i, j :: InBounds(g, i, j) ==>
      h[i][j].state == g[i][j].state || (g[i][j].state == Closed && h[i][j].state == Open)
  }

  /** h arises from g by opening some closed cells and nothing else. */
  ghost predicate OnlyOpens(g: Grid, h: Grid)
  {
    SameContents(g, h) && StatesOnlyOpen(g, h)
  }

  /** No open cell holds a mine. */
  ghost predicate NoOpenMine(g: Grid)
  {
    Rectangular(g) &&
    forall i, j :: InBounds(g, i, j) ==> g[i][j].state == Open ==> !IsMine(g[i][j])
  }

  /** No cell is closed. */
  ghost predicate NoClosed(g: Grid)
  {
    Rectangular(g) &&
    forall i, j :: InBounds(g, i, j) ==> g[i][j].state != Closed
  }

  /** `grid[row][col] = cell` on a grid value. */
  function SetCell(g: Grid, i: int, j: int, cell: Cell): (h: Grid)
    requires 0 <= i < |g| && 0 <= j < |g[i]|
    ensures |h| == |g| && forall a :: 0 <= a < |g| ==> |h[a]| == |g[a]|
    ensures Rectangular(g) ==> Rectangular(h) && Cols(h) == Cols(g)
    ensures h[i][j] == cell
    ensures forall a, b :: 0 <= a < |g| && 0 <= b < |g[a]| && (a != i || b != j) ==> h[a][b] == g[a][b]
  {
    g[i := g[i][j := cell]]
  }

  /** The cell every grid starts from. */
  const InitialCell := Cell(Free(0), Closed)

  /**
   * generateEmptyCellGrid: rows copies of cols copies of a closed free cell with
   * no neighbouring mines.
   */
  function GenerateEmptyCellGrid(rows: int, cols: int): (g: Grid)
    requires rows >= 0 && cols >= 0
    ensures IsGrid(g, rows, cols) && Rectangular(g)
    ensures forall i, j :: 0 <= i < rows && 0 <= j < cols ==> g[i][j] == InitialCell
  {
    Repeat(Repeat(InitialCell, cols), rows)
  }

  /** The number of mines a planting loop `while (minesPlanted < mines)` adds. */
  function MinesToPlant(mines: int): nat
  {
    if mines > 0 then mines else 0
  }

  // ----- Counting cells -----

  ghost function CountRow(row: seq<Cell>, p: Cell -> bool): nat
  {
    if row == [] then 0 else (if p(row[0]) then 1 else 0) + CountRow(row[1..], p)
  }

  /** The number of cells of g satisfying p. */
  ghost function Count(g: Grid, p: Cell -> bool): nat
  {
    if g == [] then 0 else CountRow(g[0], p) + Count(g[1..], p)
  }

  lemma {:induction false} CountRowUpdate(row: seq<Cell>, j: int, cell: Cell, p: Cell -> bool)
    requires 0 <= j < |row|
    ensures CountRow(row[j := cell], p)
         == CountRow(row, p) - (if p(row[j]) then 1 else 0) + (if p(cell) then 1 else 0)
  {
    if j == 0 {
      assert row[j := cell][1..] == row[1..];
    } else {
      assert row[j := cell][1..] == row[1..][j - 1 := cell];
      CountRowUpdate(row[1..], j - 1, cell, p);
    }
  }

  /** Writing one cell changes a count by at most that one cell. */
  lemma {:induction false} CountUpdate(g: Grid, i: int, j: int, cell: Cell, p: Cell -> bool)
    requires 0 <= i < |g| && 0 <= j < |g[i]|
    ensures Count(SetCell(g, i, j, cell), p)
         == Count(g, p) - (if p(g[i][j]) then 1 else 0) + (if p(cell) then 1 else 0)
  {
    if i == 0 {
      assert SetCell(g, i, j, cell)[1..] == g[1..];
      CountRowUpdate(g[0], j, cell, p);
    } else {
      assert SetCell(g, i, j, cell)[1..] == SetCell(g[1..], i - 1, j, cell);
      CountUpdate(g[1..], i - 1, j, cell, p);
    }
  }

  lemma {:induction false} CountRowAll(row: seq<Cell>, p: Cell -> bool)
    requires forall j :: 0 <= j < |row| ==> p(row[j])
    ensures CountRow(row, p) == |row|
  {
    if row != [] {
      CountRowAll(row[1..], p);
    }
  }

  /** A rows x cols grid whose cells all satisfy p counts rows * cols of them. */
  lemma {:induction false} CountAll(g: Grid, p: Cell -> bool, rows: nat, cols: nat)
    requires IsGrid(g, rows, cols)
    requires forall i, j :: 0 <= i < rows && 0 <= j < cols ==> p(g[i][j])
    ensures Count(g, p) == rows * cols
  {
    if rows > 0 {
      CountRowAll(g[0], p);
      assert forall i, j :: 0 <= i < rows - 1 && 0 <= j < cols ==> g[1..][i][j] == g[i + 1][j];
      CountAll(g[1..], p, rows - 1, cols);
      assert (rows - 1) * cols + cols == rows * cols;
    }
  }

  lemma {:induction false} CountRowNone(row: seq<Cell>, p: Cell -> bool)
    requires forall j :: 0 <= j < |row| ==> !p(row[j])
    ensures CountRow(row, p) == 0
  {
    if row != [] {
      CountRowNone(row[1..], p);
    }
  }

  /** A grid none of whose cells satisfies p counts none. */
  lemma {:induction false} CountNone(g: Grid, p: Cell -> bool)
    requires forall i, j :: 0 <= i < |g| && 0 <= j < |g[i]| ==> !p(g[i][j])
    ensures Count(g, p) == 0
  {
    if g != [] {
      CountRowNone(g[0], p);
      assert forall i, j :: 0 <= i < |g| - 1 && 0 <= j < |g[1..][i]| ==> g[1..][i][j] == g[i + 1][j];
      CountNone(g[1..], p);
    }
  }

  lemma {:induction false} CountRowPointwise(a: seq<Cell>, b: seq<Cell>, p: Cell -> bool, q: Cell -> bool)
    requires |a| == |b|
    requires forall j :: 0 <= j < |a| ==> p(a[j]) == q(b[j])
    ensures CountRow(a, p) == CountRow(b, q)
  {
    if a != [] {
      CountRowPointwise(a[1..], b[1..], p, q);
    }
  }

  /** Two grids of one shape that agree cell by cell on p and q count alike. */
  lemma {:induction false} CountPointwise(g: Grid, h: Grid, p: Cell -> bool, q: Cell -> bool)
    requires |g| == |h| && forall i :: 0 <= i < |g| ==> |g[i]| == |h[i]|
    requires forall i, j :: 0 <= i < |g| && 0 <= j < |g[i]| ==> p(g[i][j]) == q(h[i][j])
    ensures Count(g, p) == Count(h, q)
  {
    if g != [] {
      CountRowPointwise(g[0], h[0], p, q);
      assert forall i, j :: 0 <= i < |g| - 1 && 0 <= j < |g[1..][i]| ==>
        g[1..][i][j] == g[i + 1][j] && h[1..][i][j] == h[i + 1][j];
      CountPointwise(g[1..], h[1..], p, q);
    }
  }

  lemma {:induction false} CountRowMono(row: seq<Cell>, p: Cell -> bool, q: Cell -> bool)
    requires forall j :: 0 <= j < |row| ==> p(row[j]) ==> q(row[j])
    ensures CountRow(row, p) <= CountRow(row, q)
  {
    if row != [] {
      CountRowMono(row[1..], p, q);
    }
  }

  /** When every p-cell is a q-cell, there are no more p-cells than q-cells. */
  lemma {:induction false} CountMono(g: Grid, p: Cell -> bool, q: Cell -> bool)
    requires forall i, j :: 0 <= i < |g| && 0 <= j < |g[i]| ==> p(g[i][j]) ==> q(g[i][j])
    ensures Count(g, p) <= Count(g, q)
  {
    if g != [] {
      CountRowMono(g[0], p, q);
      assert forall i, j :: 0 <= i < |g| - 1 && 0 <= j < |g[1..][i]| ==> g[1..][i][j] == g[i + 1][j];
      CountMono(g[1..], p, q);
    }
  }

  lemma {:induction false} CountRowMonoStrict(row: seq<Cell>, p: Cell -> bool, q: Cell -> bool, j: int)
    requires forall k :: 0 <= k < |row| ==> p(row[k]) ==> q(row[k])
    requires 0 <= j < |row| && q(row[j]) && !p(row[j])
    ensures CountRow(row, p) < CountRow(row, q)
  {
    if j == 0 {
      CountRowMono(row[1..], p, q);
    } else {
      CountRowMonoStrict(row[1..], p, q, j - 1);
    }
  }

  /** When every p-cell is a q-cell and cell (i, j) is a q-cell only, p-cells are fewer. */
  lemma {:induction false} CountMonoStrict(g: Grid, p: Cell -> bool, q: Cell -> bool, i: int, j: int)
    requires forall a, b :: 0 <= a < |g| && 0 <= b < |g[a]| ==> p(g[a][b]) ==> q(g[a][b])
    requires 0 <= i < |g| && 0 <= j < |g[i]| && q(g[i][j]) && !p(g[i][j])
    ensures Count(g, p) < Count(g, q)
  {
    assert forall a, b :: 0 <= a < |g| - 1 && 0 <= b < |g[1..][a]| ==> g[1..][a][b] == g[a + 1][b];
    if i == 0 {
      CountRowMonoStrict(g[0], p, q, j);
      CountMono(g[1..], p, q);
    } else {
      CountRowMono(g[0], p, q);
      CountMonoStrict(g[1..], p, q, i - 1, j);
    }
  }

  /**
   * If fewer than rows*cols cells are mines once cell (si, sj) is counted as one,
   * some cell other than (si, sj) is not a mine: the random pick can succeed.
   */
  lemma FreeCellExists(g: Grid, rows: nat, cols: nat, si: int, sj: int)
    requires IsGrid(g, rows, cols) && 0 <= si < rows && 0 <= sj < cols
    requires Count(g, IsMine) + (if IsMine(g[si][sj]) then 0 else 1) < rows * cols
    ensures exists i, j :: 0 <= i < rows && 0 <= j < cols && (i != si || j != sj) && !IsMine(g[i][j])
  {
    var h := SetCell(g, si, sj, Cell(Mine, Closed));
    CountUpdate(g, si, sj, Cell(Mine, Closed), IsMine);
    if forall i, j :: 0 <= i < rows && 0 <= j < cols && (i != si || j != sj) ==> IsMine(g[i][j]) {
      CountAll(h, IsMine, rows, cols);
      assert false;
    }
  }

  /** If fewer than rows*cols cells are mines, some cell is not a mine. */
  lemma NonMineExists(g: Grid, rows: nat, cols: nat)
    requires IsGrid(g, rows, cols)
    requires Count(g, IsMine) < rows * cols
    ensures exists i, j :: 0 <= i < rows && 0 <= j < cols && !IsMine(g[i][j])
  {
    if forall i, j :: 0 <= i < rows && 0 <= j < cols ==> IsMine(g[i][j]) {
      CountAll(g, IsMine, rows, cols);
      assert false;
    }
  }

  /**
   * The empty grid: rows*cols cells that are not open, no mine, no flag.
   */
  lemma EmptyGridCounts(rows: nat, cols: nat)
    ensures Count(GenerateEmptyCellGrid(rows, cols), IsNotOpen) == rows * cols
    ensures Count(GenerateEmptyCellGrid(rows, cols), IsMine) == 0
    ensures Count(GenerateEmptyCellGrid(rows, cols), IsFlagged) == 0
  {
    var g := GenerateEmptyCellGrid(rows, cols);
    CountAll(g, IsNotOpen, rows, cols);
    CountNone(g, IsMine);
    CountNone(g, IsFlagged);
  }

  /** Cells that only open keep every mine and every flag where it was. */
  lemma OnlyOpensKeepsCounts(g: Grid, h: Grid)
    requires OnlyOpens(g, h)
    ensures Count(h, IsMine) == Count(g, IsMine)
    ensures Count(h, IsFlagged) == Count(g, IsFlagged)
  {
    CountPointwise(g, h, IsMine, IsMine);
    CountPointwise(g, h, IsFlagged, IsFlagged);
  }

  /**
   * While no open cell is a mine, at least as many cells are not open as there are
   * mines: the remaining closed/flagged cells cover every mine.
   */
  lemma MinesStayCovered(g: Grid)
    requires NoOpenMine(g)
    ensures Count(g, IsMine) <= Count(g, IsNotOpen)
  {
    CountMono(g, IsMine, IsNotOpen);
  }

  /** Grids with the same states count the same unopened and flagged cells. */
  lemma SameStatesKeepsCounts(g: Grid, h: Grid)
    requires SameStates(g, h)
    ensures Count(h, IsNotOpen) == Count(g, IsNotOpen)
    ensures Count(h, IsFlagged) == Count(g, IsFlagged)
  {
    CountPointwise(g, h, IsNotOpen, IsNotOpen);
    CountPointwise(g, h, IsFlagged, IsFlagged);
  }

  /**
   * With no open mine and as many mines as unopened cells, the unopened cells are
   * exactly the mines.
   */
  lemma CoveredCellsAreMines(g: Grid)
    requires NoOpenMine(g) && Count(g, IsMine) == Count(g, IsNotOpen)
    ensures forall i, j :: InBounds(g, i, j) ==> (IsNotOpen(g[i][j]) <==> IsMine(g[i][j]))
  {
    forall i, j | InBounds(g, i, j) && IsNotOpen(g[i][j])
      ensures IsMine(g[i][j])
    {
      if !IsMine(g[i][j]) {
        CountMonoStrict(g, IsMine, IsNotOpen, i, j);
      }
    }
  }

  /**
   * One step of a planting loop: turning a cell that is not a mine into a mine keeps
   * every state and every mine, and adds one mine.
   */
  lemma PlantMine(g: Grid, r: int, c: int)
    requires Rectangular(g) && InBounds(g, r, c) && !IsMine(g[r][c])
    ensures var h := SetCell(g, r, c, g[r][c].(contents := Mine));
      && SameStates(g, h)
      && Count(h, IsMine) == Count(g, IsMine) + 1
      && forall i, j :: InBounds(g, i, j) && IsMine(g[i][j]) ==> IsMine(h[i][j])
  {
    CountUpdate(g, r, c, g[r][c].(contents := Mine), IsMine);
  }
}
