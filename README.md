# Minesweeper engine, modelled in Dafny

This project models the game engine of a small Minesweeper page and proves properties of it.
The page's engine lives in `src/pages/MinesweeperViewModel.ts`. There, mines are planted on the
first click, never on the clicked cell. A zero cell opens its neighbours recursively. Flags are
capped at the mine count. The game runs `firstMove -> playing -> win | lose`.

An older variant, `src/pages/MinesweeperContext.ts`, is modelled as a second class. It plants
at creation, so there is no safe first click. It has no flag counter and no flag cap, and its
win check has no state guard.

The grid helpers `makeRange`, `repeat` and `copyValue` (`src/utils/`) are modelled as well.

Modules, one per concern:

- `RangeUtil` (`ranges.dfy`): `makeRange`, and what it returns case by case.
- `RepeatUtil` and `CopyValueUtil` (`repeat.dfy`, `copy_value.dfy`): `repeat` and `copyValue`.
- `Cells` (`cells.dfy`): the cell and grid types, `generateEmptyCellGrid`, and the cell
  counts the engines keep: unopened cells, flagged cells and mines.
- `Neighborhood` (`neighbors.dfy`): `neighborPairs`, `countNeighbors`, and the pass that
  writes every free cell's neighbour count after planting.
- `Cascade` (`cascade.dfy`): `recursiveOpen` and `flagRemainingCells`.
- `ViewModel` (`view_model.dfy`): `canMove` and `getPlantedGrid`, plus the class
  `MinesweeperViewModel`. Its fields are the hook's `useState` values. Each callback is one
  method, and the win `useEffect` is the method `WinEffect`.
- `Context` (`context.dfy`): `generateInitialCellGrid` and the class `MinesweeperContext`.

In both files, the helpers `neighborPairs`, `countNeighbors`, `recursiveOpen`,
`flagRemainingCells` are the same text, and the neighbour-count pass is the same code up to
the names of the two size variables (`gridRows`/`gridCols` in the view model, `rows`/`cols` in
the context). In MinesweeperContext.ts these are lines 43-61, 77-83 and 101-126. They are modelled once, and both engine classes use
that one model.

A grid is a value, `seq<seq<Cell>>`. The source clones the grid, mutates the clone in place,
then publishes it. The model threads the new grid value through loops and recursion instead.
The engine classes reassign their `cellState` field.

What is proved, in short:

- `makeRange` returns an interval in every case. An `end` of 0 counts as absent.
- `neighborPairs` returns the clipped 3x3 window, in row-major order, with at most 8 cells.
  On a board of one row or one column it returns nothing, because `makeRange(0, 0, true)` is
  empty.
- Planting adds exactly the requested mines. It never places one on the safe cell and never
  changes a cell's state. Afterwards every free cell shows the number of mines among its
  neighbours.
- `recursiveOpen` only opens closed cells and returns how many it opened. It leaves no closed
  neighbour next to an opened zero cell. Conversely, every cell it opens is reached from the
  clicked cell through a chain of opened zero cells, each step to an adjacent cell, and a
  closed clicked cell that is a mine or shows a number opens alone. On a consistently counted grid
  (every free cell shows its neighbouring mines) it never opens a mine except possibly the
  clicked cell.
- In both engines, `closedCells` always equals the number of cells that are not open.
- In the view model, `flagsSet` stays within `[0, mines]`. It equals the number of flagged
  cells until the win flags the rest.
- In the view model, the first click never loses. A later click loses exactly when the
  clicked cell holds a mine, flagged or not.
- The view model's win effect leaves a solved board: the unopened cells are exactly the mines, and every one
  of them is flagged. A game that can still move has more unopened cells than mines.

Where the code does not do what the usual Minesweeper rules or its own tests lead one to
expect, the model follows the code:

- A click on a cell that is not closed is not a no-op. In `playing` it still loses on a
  flagged mine. In `firstMove` it still plants the mines and moves to `playing`.
- `closedCells` counts flagged cells as well as closed ones: it counts every cell that is not
  open.
- Neighbours are not the Moore neighbourhood on boards of one row or one column. There, no
  cell has any neighbour.
- `makeRange` expectations in `src/utils/makeRange.test.ts` (lines 15 and 18-24) do not hold
  for the code. `makeRange(0, 0, true)` is `[]`, not `[0]`. Negative starts are clamped to 0,
  and a negative array length throws. The model states what the code returns
  (`RangeUtil.MakeRangeZeroEndIgnored`, `RangeUtil.MakeRangeIsInterval`).

## Model

| member | source | states |
|---|---|---|
| RangeUtil.MakeRange | src/utils/makeRange.ts:1-12 | the result is strictly increasing (so has no duplicates) and never holds a negative number, for every input whose array length is not negative |
| RangeUtil.MakeRangeIsInterval | src/utils/makeRange.ts:2-10 | with `end` absent or 0 the result is [0, start); with `end` and endInclusive it is [max(start,0), end]; with `end` alone it is [max(start,0), end) |
| RangeUtil.MakeRangeZeroEndIgnored | src/utils/makeRange.ts:2 | an `end` of 0 behaves like an absent one, and makeRange(0, 0, true) is empty |
| RangeUtil.AtLeastKeys | src/utils/makeRange.ts:4-6 | the keys of an n-element array filtered to those >= start are the interval [max(start,0), n) |
| RepeatUtil.Repeat | src/utils/repeat.ts:3-5 | `times` elements, each equal to `value`; empty for times 0 |
| CopyValueUtil.CopyValue | src/utils/copyValue.ts:3-5 | `times` elements, each equal to `value`; empty for times 0 |
| Cells.GenerateEmptyCellGrid | src/pages/MinesweeperViewModel.ts:96-98 | a rows x cols grid every cell of which is a closed free cell with count 0 |
| Cells.EmptyGridCounts | src/pages/MinesweeperViewModel.ts:152-156 | the empty grid has rows*cols unopened cells, no mine and no flag, matching the initial closedCells and flagsSet |
| Cells.CountUpdate | src/pages/MinesweeperViewModel.ts:82 | writing one cell changes any cell count by that cell's old and new membership only |
| Cells.FreeCellExists | src/pages/MinesweeperViewModel.ts:76-84 | while fewer mines are planted than the board can take besides the safe cell, an eligible cell exists, so the planting loop can progress |
| Cells.NonMineExists | src/pages/MinesweeperContext.ts:67-75 | while fewer than rows*cols cells are mines, a cell that is not a mine exists |
| Cells.OnlyOpensKeepsCounts | src/pages/MinesweeperViewModel.ts:116-129 | opening cells changes neither the number of mines nor the number of flags |
| Cells.MinesStayCovered | src/pages/MinesweeperViewModel.ts:204-209 | with no open mine there are at least as many unopened cells as mines |
| Cells.CoveredCellsAreMines | src/pages/MinesweeperViewModel.ts:205 | with no open mine and as many mines as unopened cells, a cell is unopened exactly when it is a mine |
| Cells.CountMonoStrict | src/pages/MinesweeperViewModel.ts:205 | one cell outside p but inside q makes the p-count strictly smaller than the q-count |
| Neighborhood.SpanMembers | src/pages/MinesweeperViewModel.ts:53-56 | the row (column) window is t-1..t+1 clipped to the board when the axis has 2 or more cells, and empty on an axis of one cell |
| Neighborhood.Neighbors | src/pages/MinesweeperViewModel.ts:51-63 | every listed neighbour is on the board and differs from the target |
| Neighborhood.NeighborPairs | src/pages/MinesweeperViewModel.ts:51-63 | the pairs the nested loops push are exactly `Neighbors(rows, cols, targetRow, targetCol)` |
| Neighborhood.NeighborsAreMooreNeighborhood | src/pages/MinesweeperViewModel.ts:53-61 | on a board of at least 2 x 2, a pair is listed if and only if it is on the board, within distance 1 in both coordinates, and not the target |
| Neighborhood.NeighborsOfThinBoard | src/pages/MinesweeperViewModel.ts:53-56 | on a board of one row or one column no cell has a neighbour |
| Neighborhood.NeighborIsAdjacent | src/pages/MinesweeperViewModel.ts:53-61 | every pair neighborPairs lists is a different cell of the board at most one row and one column from the target, on a board of at least 2 x 2 |
| Neighborhood.NeighborsRowMajor | src/pages/MinesweeperViewModel.ts:55-61 | the neighbours come in row-major order, so each appears once, and there are at most 8 |
| Neighborhood.PairsMembers | src/pages/MinesweeperViewModel.ts:55-61 | a pair is pushed if and only if its row is in the row window, its column in the column window, and it is not the target |
| Neighborhood.PairsLength | src/pages/MinesweeperViewModel.ts:55-61 | the loops push |rows window| * |column window| pairs, less one when the target lies in the window |
| Neighborhood.MinesAmong | src/pages/MinesweeperViewModel.ts:66-68 | the filtered length is at most the number of pairs, and is 0 exactly when no listed cell is a mine |
| Neighborhood.CountNeighbors | src/pages/MinesweeperViewModel.ts:65-69 | the count is at most 8 and is 0 exactly when no neighbour is a mine |
| Neighborhood.ConsistentTransfer | src/pages/MinesweeperViewModel.ts:116-129 | a grid with the same contents as a consistently counted grid is consistently counted |
| Neighborhood.ZeroCellHasNoMineAround | src/pages/MinesweeperViewModel.ts:121-122 | on a consistently counted grid, a free cell showing 0 has no mine among its neighbours |
| Neighborhood.FillStep | src/pages/MinesweeperViewModel.ts:88-90 | writing one cell's count keeps mines and states and extends the filled prefix by that cell |
| Neighborhood.FillNeighborCounts | src/pages/MinesweeperViewModel.ts:86-92 | mines and states are unchanged and afterwards every free cell's count equals the number of mines among its neighbours |
| Cascade.OpenOne | src/pages/MinesweeperViewModel.ts:119-120 | opening the start cell opens exactly that closed cell, one fewer cell is unopened |
| Cascade.CascadeCompose | src/pages/MinesweeperViewModel.ts:122-126 | the caller's progress and the result of a recursive call compose: cells only open, and opened zero cells keep no closed neighbour |
| Cascade.OpenedFreeCompose | src/pages/MinesweeperViewModel.ts:123-124 | a recursive call started on a neighbour that is not a mine adds no opened mine |
| Cascade.LoopStepOpen | src/pages/MinesweeperViewModel.ts:122-126 | after recursing into a closed neighbour the loop's progress holds for one more neighbour, with the opened count added |
| Cascade.LoopDone | src/pages/MinesweeperViewModel.ts:122-127 | once every neighbour has been visited, no neighbour of the start cell is closed and the cascade is complete |
| Cascade.RecursiveOpen | src/pages/MinesweeperViewModel.ts:116-129 | a start cell not closed gives 0 and no change; otherwise it ends open and the result equals the number of cells taken from closed to open; contents and flagged cells are untouched; a closed start cell that is a mine or shows a non-zero count opens alone and gives 1; no opened zero cell keeps a closed neighbour (lower bound); every opened cell was reached from the start through opened zero cells, recorded by a parent of lower rank per opened cell (upper bound); on a consistently counted grid no cell but the start opens a mine |
| Cascade.FloodReachesOpened | src/pages/MinesweeperViewModel.ts:116-129 | for a cascade with the upper bound above, every opened cell ends a chain that starts at the start cell, in which every cell is opened and every step goes from an opened zero cell to an adjacent cell |
| Cascade.FloodFromSameStates | src/pages/MinesweeperViewModel.ts:161-167 | the upper bound depends only on the states of the starting board, so the cascade on the planted board is bounded the same way relative to the board the player saw |
| Cascade.OpeningKeepsNoOpenMine | src/pages/MinesweeperViewModel.ts:167-170 | opening from a cell that is not a mine keeps every open cell free of mines |
| Cascade.FlagAll | src/pages/MinesweeperViewModel.ts:131-141 | the result has the shape of the input and each cell is that cell with closed turned into flagged |
| Cascade.FlagRemainingCells | src/pages/MinesweeperViewModel.ts:131-141 | the loops return `FlagAll` of the input; the input value is not modified |
| Cascade.FlagAllProperties | src/pages/MinesweeperViewModel.ts:131-141 | no closed cell remains, contents and the unopened and mine counts are unchanged, and a grid without closed cells is returned as it was |
| Cascade.FlagToggleKeeps | src/pages/MinesweeperViewModel.ts:179-188 | toggling a cell between closed and flagged keeps contents, the unopened and mine counts, the neighbour counts and the mine-free open cells, and moves the flag count by that cell |
| ViewModel.CanMove | src/pages/MinesweeperViewModel.ts:28 | moves are allowed exactly while the game is neither won nor lost |
| ViewModel.GetPlantedGrid | src/pages/MinesweeperViewModel.ts:72-94 | states are unchanged, exactly max(mines,0) mines are added, existing mines stay, the safe cell gets no mine, and every free cell shows its neighbouring mine count |
| ViewModel.PlantedStart | src/pages/MinesweeperViewModel.ts:161-163 | planting an unplanted board keeps its unopened and flagged counts and leaves no open mine |
| ViewModel.OpenKeepsBookkeeping | src/pages/MinesweeperViewModel.ts:167-172 | a click's cascade keeps mines, flags and neighbour counts, and opens no mine when the clicked cell is not one |
| ViewModel.PlantOnFirstMove | src/pages/MinesweeperViewModel.ts:161-162 | the first click's planting keeps states and the unopened and flagged counts, plants exactly `mines` mines, none on the clicked cell, and leaves every free cell showing its count |
| ViewModel.OpenOnPlanted | src/pages/MinesweeperViewModel.ts:167 | the click's recursiveOpen keeps contents, mines, flags and counts, opens no mine from a non-mine cell, and its cascade, stated against the board the player saw, is complete, reached from the clicked cell, and opens a numbered clicked cell alone |
| ViewModel.UnplantedAllCovered | src/pages/MinesweeperViewModel.ts:152 | before the first click all rows*cols cells are unopened |
| ViewModel.FlagAllSolves | src/pages/MinesweeperViewModel.ts:204-209 | when unopened cells and mines are equally many, flagging the rest leaves a solved board: no closed cell, and the unopened cells are exactly the mines |
| ViewModel.FlagToggleKeepsUnplanted | src/pages/MinesweeperViewModel.ts:179-188 | flagging before the first click keeps the board unplanted |
| ViewModel.MinesweeperViewModel.constructor | src/pages/MinesweeperViewModel.ts:145-156 | a 10 x 10 empty board with 10 mines to plant, 100 unopened cells, no flag, waiting for the first move |
| ViewModel.MinesweeperViewModel.OnCellClick | src/pages/MinesweeperViewModel.ts:158-173 | no change once the game is over; the first click moves to playing and never loses, the clicked cell holds no mine; later clicks lose exactly when the clicked cell holds a mine; cells only open, and measured against the board before the click the cascade is complete, every opened cell was reached from the clicked one through opened zero cells, a closed clicked numbered cell opens alone, and closedCells drops by the number of cells opened; the invariant, including closedCells as the unopened count, is kept |
| ViewModel.MinesweeperViewModel.OnCellFlag | src/pages/MinesweeperViewModel.ts:175-191 | no change once the game is over or on an open cell; flagged becomes closed with flagsSet - 1; closed becomes flagged with flagsSet + 1 only while flagsSet < mines, else nothing changes; closedCells and winState are untouched |
| ViewModel.MinesweeperViewModel.ResetGameInternal | src/pages/MinesweeperViewModel.ts:193-198 | an empty board of the given size, closedCells equal to its size and its unopened count, no flag, first move |
| ViewModel.MinesweeperViewModel.ResetGame | src/pages/MinesweeperViewModel.ts:200-202 | an empty board of the current size, first move, no flag, and the invariant kept |
| ViewModel.MinesweeperViewModel.SetParameters | src/pages/MinesweeperViewModel.ts:211-221 | accepted exactly when 0 < rows <= 20, 0 < cols <= 30, 0 < mines <= 100 and mines < rows*cols; then the new size and mine count on an empty board in the first move; otherwise no change |
| ViewModel.MinesweeperViewModel.WinEffect | src/pages/MinesweeperViewModel.ts:204-209 | fires exactly when the game can move and closedCells equals mines, flagging every closed cell and winning with a solved board; otherwise no change; afterwards a game that can move has more unopened cells than mines |
| Context.GenerateInitialCellGrid | src/pages/MinesweeperContext.ts:64-85 | a rows x cols all-closed board with exactly max(mines,0) mines, rows*cols unopened cells, no flag, and every free cell showing its neighbouring mine count |
| Context.MinesweeperContext.constructor | src/pages/MinesweeperContext.ts:128-139 | a freshly planted all-closed board, closedCells = rows*cols, playing |
| Context.MinesweeperContext.OnCellClick | src/pages/MinesweeperContext.ts:141-150 | no change unless playing; otherwise cells only open, the cascade is complete, every opened cell was reached from the clicked one through opened zero cells, a closed clicked cell that is a mine or shows a non-zero count is the only cell opened and closedCells drops by 1, and the game is lost exactly when the clicked cell holds a mine, the first click included |
| Context.MinesweeperContext.OnCellFlag | src/pages/MinesweeperContext.ts:152-165 | no change unless playing or on an open cell; otherwise the cell toggles between closed and flagged with no limit; closedCells and winState are untouched |
| Context.MinesweeperContext.ResetGame | src/pages/MinesweeperContext.ts:167-171 | a freshly planted all-closed board of the same size, closedCells = rows*cols, playing |
| Context.MinesweeperContext.WinEffect | src/pages/MinesweeperContext.ts:173-179 | fires whenever closedCells equals mines, whatever the game state, lost included, flagging every closed cell and winning; otherwise no change; afterwards a game still playing has more unopened cells than mines |

## Left out

- React machinery is not modelled: `useState`, `useCallback`, `createContext`, dependency
  arrays and render batching. Each callback is one atomic method on the class's fields. The
  win `useEffect` is a method the caller runs after a command.
- ViewModel.MinesweeperViewModel.WinEffect: React re-runs the effect only when `winState`,
  `mines` or `closedCells` changed. Running it after every command gives the same states,
  because a second run right after the first changes nothing.
- Context.MinesweeperContext.WinEffect: React re-runs this effect only when `mines` or
  `closedCells` changed. The model does not decide when it runs. One case therefore depends on
  the caller: a `resetGame` when `mines == rows*cols`, which leaves `closedCells` unchanged.
- `Math.random` and the uniformity of mine placement are not modelled. Each pick is a
  nondeterministic choice among the eligible cells, and picks the source rejects are no-op
  iterations. Nothing probabilistic is claimed.
- ViewModel.GetPlantedGrid and Context.GenerateInitialCellGrid require the board to have room
  for every mine. With too little room on a board that has cells the source loops forever, so
  the model leaves that case out. On a board with no cells the first pick throws a TypeError
  instead, because it reads `.contents` of an undefined cell. `grid[0].length` on a grid without rows throws, so the planting grid needs a row.
- RangeUtil.MakeRange requires the array length (`start`, `end` or `end + 1`) not to be
  negative. JavaScript throws a RangeError there, and no caller catches it.
- Coordinates passed to the commands are required to be on the board, because the source
  indexes without checks.
- Aliasing and in-place update are not modelled. `structuredClone`, the clones made by
  `repeat` and `copyValue`, and the in-place writes of `recursiveOpen`, the planting loop and
  the count pass all become grid values. Value semantics gives the independence of copies by
  construction, so it is not stated as a separate property.
- JavaScript numbers are doubles. The view model's boards hold at most 600 cells. The older
  engine takes any size, but every board that fits in memory keeps its counts far below 2^53,
  and up to there doubles hold integers exactly, so counts are unbounded integers here.
- Recursion depth of `recursiveOpen` (stack size) is not modelled.
- The default context objects with `console.log` are not modelled
  (MinesweeperViewModel.ts:100-112, MinesweeperContext.ts:87-97). Neither is the logging line
  at MinesweeperContext.ts:174.
- The page component `src/pages/Minesweeper.tsx` is not part of this model: rendering, input
  parsing and disabling non-closed cells. The same holds for routing, layout, the stopwatch
  hook and the timer formatter.
