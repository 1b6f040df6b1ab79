// src/pages/MinesweeperContext.ts: the older engine. The board is planted when
// the game is created, with no safe first click; flags toggle with no counter or
// cap; the win check has no winState guard. The helpers it shares with the newer
// engine (lines 43-61 and 101-126) are modelled once in Neighborhood and Cascade.

module Context {
  import opened Cells
  import opened Neighborhood
  import opened Cascade

  /** WinState of the older engine: there is no first-move state. */
  datatype WinState = Playing | Win | Lose

  /** Every cell of g is closed. */
  ghost predicate AllClosed(g: Grid)
  {
    forall i, j :: 0 <= i < |g| && 0 <= j < |g[i]| ==> g[i][j].state == Closed
  }

  /**
   * generateInitialCellGrid(rows, cols, mines): an empty rows x cols board with
   * `mines` mines planted anywhere, then every free cell's neighbour count. Random
   * picks that land on a mine are no-op iterations, so the model picks among the
   * cells that are not mines; the loop ends only if the board has room for all the
   * mines, which the precondition states.
   */
  method GenerateInitialCellGrid(rows: int, cols: int, mines: int) returns (grid: Grid)
    requires rows >= 0 && cols >= 0 && MinesToPlant(mines) <= rows * cols
    ensures IsGrid(grid, rows, cols) && Rectangular(grid) && AllClosed(grid)
    ensures Count(grid, IsMine) == MinesToPlant(mines)
    ensures Count(grid, IsNotOpen) == rows * cols && Count(grid, IsFlagged) == 0
    ensures CountsConsistent(grid)
  {
    var g := GenerateEmptyCellGrid(rows, cols);
    EmptyGridCounts(rows, cols);
    var minesPlanted := 0;
    while minesPlanted < mines
      invariant 0 <= minesPlanted <= MinesToPlant(mines)
      invariant IsGrid(g, rows, cols) && AllClosed(g)
      invariant Count(g, IsMine) == minesPlanted
      decreases mines - minesPlanted
    {
      NonMineExists(g, rows, cols);
      var mineRow, mineCol :| 0 <= mineRow < rows && 0 <= mineCol < cols && !IsMine(g[mineRow][mineCol]);
      PlantMine(g, mineRow, mineCol);
      g := SetCell(g, mineRow, mineCol, g[mineRow][mineCol].(contents := Mine));
      minesPlanted := minesPlanted + 1;
    }
    grid := FillNeighborCounts(g);
    CountPointwise(g, grid, IsMine, IsMine);
    CountAll(grid, IsNotOpen, rows, cols);
    CountNone(grid, IsFlagged);
  }

  /** The state of createMinesweeperContext(rows, cols, mines). */
  class MinesweeperContext {
    const rows: int
    const cols: int
    const mines: int
    var winState: WinState
    var closedCells: int
    var cellState: Grid

    /**
     * closedCells counts the cells that are not open; the board holds the planted
     * mines and every free cell shows its count; while playing no open cell is a
     * mine. A reset can always plant again.
     */
    ghost predicate Valid()
      reads this
    {
      && rows >= 0 && cols >= 0 && MinesToPlant(mines) <= rows * cols
      && IsGrid(cellState, rows, cols)
      && closedCells == Count(cellState, IsNotOpen)
      && Count(cellState, IsMine) == MinesToPlant(mines)
      && CountsConsistent(cellState)
      && (winState == Playing ==> NoOpenMine(cellState))
    }

    /** The initial useState values: a freshly planted board, all closed, playing. */
    constructor (rows: int, cols: int, mines: int)
      requires rows >= 0 && cols >= 0 && MinesToPlant(mines) <= rows * cols
      ensures Valid()
      ensures this.rows == rows && this.cols == cols && this.mines == mines
      ensures winState == Playing && closedCells == rows * cols && AllClosed(cellState)
    {
      var grid := GenerateInitialCellGrid(rows, cols, mines);
      this.rows, this.cols, this.mines := rows, cols, mines;
      winState := Playing;
      closedCells := rows * cols;
      cellState := grid;
    }

    /**
     * onCellClick(row, col). Nothing happens unless playing. The cascade opens from
     * the clicked cell, and the game is lost exactly when that cell holds a mine,
     * the very first click included.
     */
    method OnCellClick(row: int, col: int)
      requires Valid() && 0 <= row < rows && 0 <= col < cols
      modifies this
      ensures Valid()
      ensures old(winState) != Playing ==> unchanged(this)
      ensures old(winState) == Playing ==> (winState == Lose <==> IsMine(old(cellState)[row][col]))
      ensures old(winState) == Playing && winState != Lose ==> winState == Playing
      ensures old(winState) == Playing ==>
        OnlyOpens(old(cellState), cellState) && CascadeComplete(old(cellState), cellState)
      ensures old(winState) == Playing && old(cellState)[row][col].state == Closed ==>
        cellState[row][col].state == Open
      ensures old(winState) == Playing && old(cellState)[row][col].state != Closed ==>
        cellState == old(cellState) && closedCells == old(closedCells)
      ensures old(winState) == Playing ==> FloodFrom(old(cellState), cellState, row, col)
      ensures (old(winState) == Playing && old(cellState)[row][col].state == Closed
               && old(cellState)[row][col].contents != Free(0)) ==>
        && cellState == SetCell(old(cellState), row, col, old(cellState)[row][col].(state := Open))
        && closedCells == old(closedCells) - 1
    {
      if winState != Playing {
        return;
      }
      var afterOpen, openedCells := RecursiveOpen(cellState, row, col);
      OnlyOpensKeepsCounts(cellState, afterOpen);
      ConsistentTransfer(cellState, afterOpen);
      if IsMine(cellState[row][col]) {
        winState := Lose;
      } else {
        OpeningKeepsNoOpenMine(cellState, afterOpen, row, col);
      }
      closedCells := closedCells - openedCells;
      cellState := afterOpen;
    }

    /**
     * onCellFlag(row, col). Nothing happens unless playing, or on an open cell;
     * otherwise the cell toggles between closed and flagged, with no limit.
     */
    method OnCellFlag(row: int, col: int)
      requires Valid() && 0 <= row < rows && 0 <= col < cols
      modifies this
      ensures Valid()
      ensures winState == old(winState) && closedCells == old(closedCells)
      ensures old(winState) != Playing || old(cellState)[row][col].state == Open ==>
        cellState == old(cellState)
      ensures old(winState) == Playing && old(cellState)[row][col].state == Flagged ==>
        cellState == SetCell(old(cellState), row, col, old(cellState)[row][col].(state := Closed))
      ensures old(winState) == Playing && old(cellState)[row][col].state == Closed ==>
        cellState == SetCell(old(cellState), row, col, old(cellState)[row][col].(state := Flagged))
    {
      if winState != Playing {
        return;
      }
      var cell := cellState[row][col];
      if cell.state != Open {
        var newCell := if cell.state == Flagged then cell.(state := Closed) else cell.(state := Flagged);
        FlagToggleKeeps(cellState, row, col, newCell);
        cellState := SetCell(cellState, row, col, newCell);
      }
    }

    /** resetGame: a freshly planted board of the same size, all closed, playing again. */
    method ResetGame()
      requires Valid()
      modifies this
      ensures Valid()
      ensures winState == Playing && closedCells == rows * cols && AllClosed(cellState)
    {
      cellState := GenerateInitialCellGrid(rows, cols, mines);
      closedCells := rows * cols;
      winState := Playing;
    }

    /**
     * The win effect, with no winState guard: whenever exactly `mines` cells are
     * unopened, every closed cell is flagged and the game is won, even right after
     * the click that lost it. Afterwards a game still being played has more unopened
     * cells than mines.
     */
    method WinEffect()
      requires Valid()
      modifies this
      ensures Valid()
      ensures closedCells == old(closedCells)
      ensures old(closedCells) == mines ==> winState == Win && cellState == FlagAll(old(cellState))
      ensures old(closedCells) != mines ==> unchanged(this)
      ensures winState == Playing ==> closedCells > mines
    {
      if winState == Playing {
        MinesStayCovered(cellState);
      }
      if closedCells == mines {
        FlagAllProperties(cellState);
        ConsistentTransfer(cellState, FlagAll(cellState));
        cellState := FlagRemainingCells(cellState);
        winState := Win;
      }
    }
  }
}
