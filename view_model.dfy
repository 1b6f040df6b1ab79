// src/pages/MinesweeperViewModel.ts: the engine behind the game page. Mines are
// planted on the first click, around the clicked cell; flags are capped at the
// mine count; the game runs firstMove -> playing -> win | lose.

module ViewModel {
  import opened Cells
  import opened Neighborhood
  import opened Cascade

  /** WinState */
  datatype WinState = FirstMove | Playing | Win | Lose

  /** canMove: the player may still click and flag. */
  function CanMove(w: WinState): (can: bool)
    ensures can <==> !(w == Win || w == Lose)
  {
    w == FirstMove || w == Playing
  }

  const MaxRows := 20
  const MaxCols := 30
  const MaxMines := 100

  /** The parameters setParameters accepts. */
  predicate ValidParameters(rows: int, cols: int, mines: int)
  {
    && 0 < rows <= MaxRows
    && 0 < cols <= MaxCols
    && 0 < mines <= MaxMines
    && mines < rows * cols
  }

  /** Cell (x, y) is on the board and not yet a mine, so planting must skip it. */
  predicate SafeCellFree(g: Grid, x: int, y: int)
  {
    0 <= x < |g| && 0 <= y < |g[x]| && !IsMine(g[x][y])
  }

  /**
   * getPlantedGrid(grid, mines, initialMoveX, initialMoveY). The loop plants mines one
   * at a time in cells that are neither (initialMoveX, initialMoveY) nor already
   * mines; each random pick that falls on such a cell is a no-op iteration, so the
   * model picks among the eligible cells directly. The loop ends only if enough
   * eligible cells exist, which the precondition states; `grid[0].length` needs a
   * first row. Afterwards every free cell gets its neighbour count.
   */
  method GetPlantedGrid(grid: Grid, mines: int, initialMoveX: int, initialMoveY: int)
    returns (planted: Grid)
    requires |grid| > 0 && Rectangular(grid)
    requires Count(grid, IsMine) + MinesToPlant(mines)
      + (if SafeCellFree(grid, initialMoveX, initialMoveY) then 1 else 0) <= |grid| * Cols(grid)
    ensures SameStates(grid, planted)
    ensures Count(planted, IsMine) == Count(grid, IsMine) + MinesToPlant(mines)
    ensures forall i, j :: InBounds(grid, i, j) && IsMine(grid[i][j]) ==> IsMine(planted[i][j])
    ensures SafeCellFree(grid, initialMoveX, initialMoveY) ==> !IsMine(planted[initialMoveX][initialMoveY])
    ensures CountsConsistent(planted)
  {
    var minesPlanted := 0;
    var gridRows, gridCols := |grid|, |grid[0]|;
    var g := grid;
    while minesPlanted < mines
      invariant 0 <= minesPlanted <= MinesToPlant(mines)
      invariant SameStates(grid, g)
      invariant Count(g, IsMine) == Count(grid, IsMine) + minesPlanted
      invariant forall i, j :: InBounds(grid, i, j) && IsMine(grid[i][j]) ==> IsMine(g[i][j])
      invariant SafeCellFree(grid, initialMoveX, initialMoveY) ==> !IsMine(g[initialMoveX][initialMoveY])
      decreases mines - minesPlanted
    {
      if InBounds(g, initialMoveX, initialMoveY) {
        FreeCellExists(g, gridRows, gridCols, initialMoveX, initialMoveY);
      } else {
        NonMineExists(g, gridRows, gridCols);
      }
      var mineRow, mineCol :| 0 <= mineRow < gridRows && 0 <= mineCol < gridCols
        && (mineRow != initialMoveX || mineCol != initialMoveY) && !IsMine(g[mineRow][mineCol]);
      PlantMine(g, mineRow, mineCol);
      g := SetCell(g, mineRow, mineCol, g[mineRow][mineCol].(contents := Mine));
      minesPlanted := minesPlanted + 1;
    }
    planted := FillNeighborCounts(g);
    CountPointwise(g, planted, IsMine, IsMine);
  }

  /** Every cell is a closed-or-flagged free cell with a zero count: nothing planted yet. */
  ghost predicate Unplanted(g: Grid)
  {
    Rectangular(g) &&
    forall i, j :: InBounds(g, i, j) ==> g[i][j].contents == Free(0) && g[i][j].state != Open
  }

  /**
   * The unopened cells are exactly the mines, and all of them are flagged: the
   * board as the win effect leaves it.
   */
  ghost predicate Solved(g: Grid)
  {
    && NoClosed(g) && NoOpenMine(g)
    && forall i, j :: InBounds(g, i, j) ==> (IsNotOpen(g[i][j]) <==> IsMine(g[i][j]))
  }

  /** Switching one unopened cell between closed and flagged keeps the board unplanted. */
  lemma FlagToggleKeepsUnplanted(g: Grid, row: int, col: int, newCell: Cell)
    requires Rectangular(g) && InBounds(g, row, col) && Unplanted(g)
    requires newCell.contents == g[row][col].contents && newCell.state != Open
    ensures Unplanted(SetCell(g, row, col, newCell))
  {
  }

  /** A planted copy of an unplanted board has no open cell, and the same unopened and flagged cells. */
  lemma PlantedStart(g: Grid, p: Grid)
    requires Unplanted(g) && SameStates(g, p)
    ensures NoOpenMine(p) && Count(g, IsMine) == 0
    ensures Count(p, IsNotOpen) == Count(g, IsNotOpen) && Count(p, IsFlagged) == Count(g, IsFlagged)
  {
    CountNone(g, IsMine);
    SameStatesKeepsCounts(g, p);
  }

  /**
   * Opening cells on a planted board keeps the mines, the flags and the neighbour
   * counts; started from a cell that is not a mine, it opens no mine.
   */
  lemma OpenKeepsBookkeeping(g: Grid, h: Grid, row: int, col: int)
    requires InBounds(g, row, col) && CountsConsistent(g) && OnlyOpens(g, h)
    requires OpenedAreFreeBut(g, h, row, col)
    ensures Count(h, IsMine) == Count(g, IsMine) && Count(h, IsFlagged) == Count(g, IsFlagged)
    ensures CountsConsistent(h)
    ensures NoOpenMine(g) && !IsMine(g[row][col]) ==> NoOpenMine(h)
  {
    OnlyOpensKeepsCounts(g, h);
    ConsistentTransfer(g, h);
    if NoOpenMine(g) && !IsMine(g[row][col]) {
      OpeningKeepsNoOpenMine(g, h, row, col);
    }
  }

  /**
   * One click's cascade as seen from the board g before the click: `count` cells
   * leave the unopened count, the clicked cell opens if it was closed and nothing
   * opens otherwise, no opened zero cell keeps a closed neighbour, every opened cell
   * was reached from the clicked one through opened zero cells, and a clicked cell
   * showing a number opens alone.
   */
  ghost predicate ClickCascade(g: Grid, h: Grid, row: int, col: int, count: int)
    requires StatesOnlyOpen(g, h) && InBounds(g, row, col)
  {
    && count == Count(g, IsNotOpen) - Count(h, IsNotOpen)
    && CascadeComplete(g, h) && FloodFrom(g, h, row, col)
    && (g[row][col].state == Closed ==> h[row][col].state == Open)
    && (g[row][col].state != Closed ==> count == 0)
    && (g[row][col].state == Closed && h[row][col].contents != Free(0) ==>
          count == 1 && SameStates(SetCell(g, row, col, g[row][col].(state := Open)), h))
  }

  /**
   * The cascade run on the planted board p, stated for the board g the player saw,
   * which has the same states.
   */
  lemma OpenFromPlanted(g: Grid, p: Grid, h: Grid, row: int, col: int, openedCells: int)
    requires SameStates(g, p) && InBounds(g, row, col) && OnlyOpens(p, h)
    requires openedCells == Count(p, IsNotOpen) - Count(h, IsNotOpen)
    requires p[row][col].state != Closed ==> h == p && openedCells == 0
    requires p[row][col].state == Closed ==> h[row][col].state == Open
    requires CascadeComplete(p, h) && FloodFrom(p, h, row, col)
    requires p[row][col].state == Closed && p[row][col].contents != Free(0) ==>
      h == SetCell(p, row, col, p[row][col].(state := Open)) && openedCells == 1
    ensures StatesOnlyOpen(g, h) && ClickCascade(g, h, row, col, openedCells)
  {
    SameStatesKeepsCounts(g, p);
    FloodFromSameStates(g, p, h, row, col);
    OpenOneSameStates(g, p, row, col);
    forall i, j | InBounds(g, i, j) && Opened(g, h, i, j) && h[i][j].contents == Free(0)
      ensures NoClosedAround(h, i, j)
    {
      assert Opened(p, h, i, j);
    }
  }

  /**
   * The getPlantedGrid call of onCellClick's first move, on a board where nothing is
   * planted yet: the planted board has the same states, `mines` mines, none of them
   * on the clicked cell, and every free cell shows its count.
   */
  method PlantOnFirstMove(g: Grid, mines: int, row: int, col: int) returns (p: Grid)
    requires Unplanted(g) && InBounds(g, row, col) && 0 < mines < |g| * Cols(g)
    ensures SameStates(g, p) && CountsConsistent(p) && NoOpenMine(p)
    ensures Count(p, IsMine) == mines && !IsMine(p[row][col])
    ensures Count(p, IsNotOpen) == Count(g, IsNotOpen) && Count(p, IsFlagged) == Count(g, IsFlagged)
  {
    PlantedStart(g, g);
    p := GetPlantedGrid(g, mines, row, col);
    PlantedStart(g, p);
  }

  /**
   * The recursiveOpen call of onCellClick, run on the board p the click opens (the
   * planted board on the first click), with what the engine keeps about it, stated
   * for the board g the player saw, which has the same states.
   */
  method OpenOnPlanted(g: Grid, p: Grid, row: int, col: int) returns (h: Grid, openedCells: nat)
    requires SameStates(g, p) && InBounds(g, row, col) && CountsConsistent(p)
    ensures OnlyOpens(p, h) && StatesOnlyOpen(g, h)
    ensures ClickCascade(g, h, row, col, openedCells)
    ensures Count(h, IsMine) == Count(p, IsMine) && Count(h, IsFlagged) == Count(p, IsFlagged)
    ensures CountsConsistent(h)
    ensures NoOpenMine(p) && !IsMine(p[row][col]) ==> NoOpenMine(h)
  {
    h, openedCells := RecursiveOpen(p, row, col);
    OpenKeepsBookkeeping(p, h, row, col);
    OpenFromPlanted(g, p, h, row, col, openedCells);
  }

  /** Before the first click every cell of the board is unopened. */
  lemma UnplantedAllCovered(g: Grid, rows: nat, cols: nat)
    requires IsGrid(g, rows, cols) && Unplanted(g)
    ensures Count(g, IsNotOpen) == rows * cols
  {
    CountAll(g, IsNotOpen, rows, cols);
  }

  /**
   * When no open cell is a mine and the unopened cells are as many as the mines,
   * flagging the remaining cells solves the board and keeps its bookkeeping.
   */
  lemma FlagAllSolves(g: Grid)
    requires NoOpenMine(g) && CountsConsistent(g) && Count(g, IsMine) == Count(g, IsNotOpen)
    ensures Solved(FlagAll(g)) && CountsConsistent(FlagAll(g))
    ensures Count(FlagAll(g), IsNotOpen) == Count(g, IsNotOpen)
    ensures Count(FlagAll(g), IsMine) == Count(g, IsMine)
  {
    CoveredCellsAreMines(g);
    FlagAllProperties(g);
    ConsistentTransfer(g, FlagAll(g));
  }

  /** The state of createMinesweeperViewModel: one field per useState. */
  class MinesweeperViewModel {
    var rows: int
    var cols: int
    var mines: int
    var flagsSet: int
    var winState: WinState
    var closedCells: int
    var cellState: Grid

    /**
     * closedCells counts the cells that are not open; flagsSet stays within
     * [0, mines] and counts the flagged cells until the win flags the rest; before
     * the first click nothing is planted; afterwards exactly `mines` cells are mines
     * and every free cell shows its count; while playing no open cell is a mine; a
     * won board is solved.
     */
    ghost predicate Valid()
      reads this
    {
      && ValidParameters(rows, cols, mines)
      && IsGrid(cellState, rows, cols)
      && closedCells == Count(cellState, IsNotOpen)
      && 0 <= flagsSet <= mines
      && (winState != Win ==> flagsSet == Count(cellState, IsFlagged))
      && (winState == FirstMove ==> Unplanted(cellState))
      && (winState != FirstMove ==> Count(cellState, IsMine) == mines && CountsConsistent(cellState))
      && (winState == Playing ==> NoOpenMine(cellState))
      && (winState == Win ==> Solved(cellState))
    }

    /** The initial useState values: a 10 x 10 board with 10 mines, nothing planted. */
    constructor ()
      ensures Valid()
      ensures rows == 10 && cols == 10 && mines == 10 && flagsSet == 0
      ensures winState == FirstMove && closedCells == 100
      ensures cellState == GenerateEmptyCellGrid(10, 10)
    {
      rows, cols, mines := 10, 10, 10;
      flagsSet := 0;
      winState := FirstMove;
      closedCells := 10 * 10;
      cellState := GenerateEmptyCellGrid(10, 10);
      EmptyGridCounts(10, 10);
    }

    /**
     * onCellClick(row, col). Nothing happens once the game is over. The first click
     * plants the mines around the clicked cell and can never lose, since the lose
     * test reads the grid as it was before planting. Later clicks lose exactly when
     * the clicked cell holds a mine, flagged or not. The cells opened are taken off
     * closedCells.
     */
    method OnCellClick(row: int, col: int)
      requires Valid() && 0 <= row < rows && 0 <= col < cols
      modifies this
      ensures Valid()
      ensures rows == old(rows) && cols == old(cols) && mines == old(mines)
      ensures flagsSet == old(flagsSet)
      ensures !CanMove(old(winState)) ==> unchanged(this)
      ensures old(winState) == FirstMove ==> winState == Playing
      ensures old(winState) == FirstMove ==> !IsMine(cellState[row][col])
      ensures old(winState) == Playing ==> (winState == Lose <==> IsMine(old(cellState)[row][col]))
      ensures old(winState) == Playing && winState != Lose ==> winState == Playing
      ensures old(winState) == Playing ==> OnlyOpens(old(cellState), cellState)
      ensures CanMove(old(winState)) ==> StatesOnlyOpen(old(cellState), cellState)
      ensures CanMove(old(winState)) ==>
        ClickCascade(old(cellState), cellState, row, col, old(closedCells) - closedCells)
    {
      if !CanMove(winState) {
        return;
      }
      var newCellState;
      if winState == FirstMove {
        newCellState := PlantOnFirstMove(cellState, mines, row, col);
        winState := Playing;
      } else {
        newCellState := cellState;
      }
      var afterOpen, openedCells := OpenOnPlanted(cellState, newCellState, row, col);
      if IsMine(cellState[row][col]) {
        winState := Lose;
      }
      closedCells := closedCells - openedCells;
      cellState := afterOpen;
    }

    /**
     * onCellFlag(row, col). Nothing happens once the game is over or on an open cell.
     * A flagged cell is closed again and the flag counter drops; a closed cell is
     * flagged only while fewer flags than mines are set, otherwise nothing changes.
     */
    method OnCellFlag(row: int, col: int)
      requires Valid() && 0 <= row < rows && 0 <= col < cols
      modifies this
      ensures Valid()
      ensures rows == old(rows) && cols == old(cols) && mines == old(mines)
      ensures winState == old(winState) && closedCells == old(closedCells)
      ensures !CanMove(old(winState)) || old(cellState)[row][col].state == Open ==>
        cellState == old(cellState) && flagsSet == old(flagsSet)
      ensures CanMove(old(winState)) && old(cellState)[row][col].state == Flagged ==>
        cellState == SetCell(old(cellState), row, col, old(cellState)[row][col].(state := Closed))
        && flagsSet == old(flagsSet) - 1
      ensures CanMove(old(winState)) && old(cellState)[row][col].state == Closed && old(flagsSet) >= mines ==>
        cellState == old(cellState) && flagsSet == old(flagsSet)
      ensures CanMove(old(winState)) && old(cellState)[row][col].state == Closed && old(flagsSet) < mines ==>
        cellState == SetCell(old(cellState), row, col, old(cellState)[row][col].(state := Flagged))
        && flagsSet == old(flagsSet) + 1
    {
      if !CanMove(winState) {
        return;
      }
      var cell := cellState[row][col];
      if cell.state != Open {
        var newCell;
        if cell.state == Flagged {
          newCell := cell.(state := Closed);
          flagsSet := flagsSet - 1;
        } else {
          if flagsSet >= mines {
            return;
          }
          newCell := cell.(state := Flagged);
          flagsSet := flagsSet + 1;
        }
        FlagToggleKeeps(cellState, row, col, newCell);
        if winState == FirstMove {
          FlagToggleKeepsUnplanted(cellState, row, col, newCell);
        }
        cellState := SetCell(cellState, row, col, newCell);
      }
    }

    /**
     * resetGameInternal(newRows, newCols): an empty newRows x newCols board, all of it
     * closed, no flag, waiting for the first click. rows, cols and mines are left to
     * the caller.
     */
    method ResetGameInternal(newRows: int, newCols: int)
      requires newRows >= 0 && newCols >= 0
      modifies this
      ensures rows == old(rows) && cols == old(cols) && mines == old(mines)
      ensures cellState == GenerateEmptyCellGrid(newRows, newCols)
      ensures closedCells == newRows * newCols == Count(cellState, IsNotOpen)
      ensures winState == FirstMove && flagsSet == 0 == Count(cellState, IsFlagged)
      ensures newRows == rows && newCols == cols && ValidParameters(rows, cols, mines) ==> Valid()
    {
      cellState := GenerateEmptyCellGrid(newRows, newCols);
      closedCells := newRows * newCols;
      winState := FirstMove;
      flagsSet := 0;
      EmptyGridCounts(newRows, newCols);
    }

    /** resetGame: a new empty board of the current size. */
    method ResetGame()
      requires Valid()
      modifies this
      ensures Valid()
      ensures rows == old(rows) && cols == old(cols) && mines == old(mines)
      ensures cellState == GenerateEmptyCellGrid(rows, cols)
      ensures closedCells == rows * cols && winState == FirstMove && flagsSet == 0
    {
      ResetGameInternal(rows, cols);
    }

    /**
     * setParameters(newRows, newCols, newMines): accepted exactly when the board fits
     * 20 x 30, holds 1 to 100 mines and leaves at least one free cell; then the game
     * restarts on an empty board of the new size. Otherwise nothing changes.
     */
    method SetParameters(newRows: int, newCols: int, newMines: int)
      requires Valid()
      modifies this
      ensures Valid()
      ensures !ValidParameters(newRows, newCols, newMines) ==> unchanged(this)
      ensures ValidParameters(newRows, newCols, newMines) ==>
        && rows == newRows && cols == newCols && mines == newMines
        && cellState == GenerateEmptyCellGrid(rows, cols)
        && closedCells == rows * cols && winState == FirstMove && flagsSet == 0
    {
      if 0 < newRows && newRows <= MaxRows
        && 0 < newCols && newCols <= MaxCols
        && 0 < newMines && newMines <= MaxMines
        && newMines < newRows * newCols
      {
        rows, cols, mines := newRows, newCols, newMines;
        ResetGameInternal(newRows, newCols);
      }
    }

    /**
     * The win effect: while the game can still move and exactly `mines` cells are
     * unopened, every closed cell is flagged and the game is won. Afterwards a game
     * that can still move has more unopened cells than mines, and a won board has
     * its mines, and only its mines, covered and flagged.
     */
    method WinEffect()
      requires Valid()
      modifies this
      ensures Valid()
      ensures rows == old(rows) && cols == old(cols) && mines == old(mines)
      ensures flagsSet == old(flagsSet) && closedCells == old(closedCells)
      ensures old(CanMove(winState) && closedCells == mines) ==>
        winState == Win && cellState == FlagAll(old(cellState))
      ensures !old(CanMove(winState) && closedCells == mines) ==> unchanged(this)
      ensures CanMove(winState) ==> closedCells > mines
    {
      if winState == FirstMove {
        UnplantedAllCovered(cellState, rows, cols);
      } else if winState == Playing {
        MinesStayCovered(cellState);
      }
      if CanMove(winState) && closedCells == mines {
        FlagAllSolves(cellState);
        cellState := FlagRemainingCells(cellState);
        winState := Win;
      }
    }
  }
}
