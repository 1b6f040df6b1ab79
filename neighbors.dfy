// neighborPairs and countNeighbors (src/pages/MinesweeperViewModel.ts:51-69,
// textually the same as src/pages/MinesweeperContext.ts:43-61) and the pass that
// writes every free cell's neighbour count after planting
// (MinesweeperViewModel.ts:86-92, MinesweeperContext.ts:77-83).

module Neighborhood {
  import opened RangeUtil
  import opened Cells

  function Min(a: int, b: int): int { if a < b then a else b }

  /**
   * The rows (or columns) the neighbour window covers around t on an axis of n
   * cells: makeRange(max(0, t-1), min(t+1, n-1), true).
   */
  function Span(n: int, t: int): seq<int>
    requires 0 <= t < n
  {
    MakeRange(Max(0, t - 1), Some(Min(t + 1, n - 1)), true)
  }

  /**
   * On an axis of at least two cells the window is t-1 .. t+1 clipped to the axis;
   * on an axis of one cell the end is 0, which makeRange ignores, so the window is
   * makeRange(0): empty.
   */
  lemma SpanMembers(n: int, t: int)
    requires 0 <= t < n
    ensures n >= 2 ==> forall x :: x in Span(n, t) <==> 0 <= x < n && t - 1 <= x <= t + 1
    ensures n == 1 ==> Span(n, t) == []
    ensures forall x :: x in Span(n, t) ==> 0 <= x < n
    ensures |Span(n, t)| <= 3
  {
    MakeRangeIsInterval(Max(0, t - 1), Some(Min(t + 1, n - 1)), true);
  }

  /** The pairs (row, col) for col in cs that the inner forEach pushes. */
  function RowPairs(row: int, cs: seq<int>, targetRow: int, targetCol: int): seq<(int, int)>
  {
    if cs == [] then []
    else
      var col := cs[|cs| - 1];
      RowPairs(row, cs[..|cs| - 1], targetRow, targetCol)
        + (if row != targetRow || col != targetCol then [(row, col)] else [])
  }

  /** Everything the two nested forEach loops push, in push order. */
  function Pairs(rs: seq<int>, cs: seq<int>, targetRow: int, targetCol: int): seq<(int, int)>
  {
    if rs == [] then []
    else Pairs(rs[..|rs| - 1], cs, targetRow, targetCol) + RowPairs(rs[|rs| - 1], cs, targetRow, targetCol)
  }

  lemma {:induction false} RowPairsMembers(row: int, cs: seq<int>, targetRow: int, targetCol: int)
    ensures forall p :: p in RowPairs(row, cs, targetRow, targetCol) <==>
      p.0 == row && p.1 in cs && (p.0 != targetRow || p.1 != targetCol)
  {
    if cs != [] {
      RowPairsMembers(row, cs[..|cs| - 1], targetRow, targetCol);
      assert cs == cs[..|cs| - 1] + [cs[|cs| - 1]];
    }
  }

  /** A pair is pushed iff its row is in rs, its column in cs and it is not the target. */
  lemma {:induction false} PairsMembers(rs: seq<int>, cs: seq<int>, targetRow: int, targetCol: int)
    ensures forall p :: p in Pairs(rs, cs, targetRow, targetCol) <==>
      p.0 in rs && p.1 in cs && (p.0 != targetRow || p.1 != targetCol)
  {
    if rs != [] {
      PairsMembers(rs[..|rs| - 1], cs, targetRow, targetCol);
      RowPairsMembers(rs[|rs| - 1], cs, targetRow, targetCol);
      assert rs == rs[..|rs| - 1] + [rs[|rs| - 1]];
    }
  }

  predicate Increasing(s: seq<int>)
  {
    forall i, j :: 0 <= i < j < |s| ==> s[i] < s[j]
  }

  /** Row-major order on cells. */
  predicate Before(p: (int, int), q: (int, int))
  {
    p.0 < q.0 || (p.0 == q.0 && p.1 < q.1)
  }

  predicate RowMajor(ps: seq<(int, int)>)
  {
    forall i, j :: 0 <= i < j < |ps| ==> Before(ps[i], ps[j])
  }

  lemma {:induction false} RowPairsOrder(row: int, cs: seq<int>, targetRow: int, targetCol: int)
    requires Increasing(cs)
    ensures RowMajor(RowPairs(row, cs, targetRow, targetCol))
    ensures |RowPairs(row, cs, targetRow, targetCol)|
         == |cs| - (if row == targetRow && targetCol in cs then 1 else 0)
  {
    if cs != [] {
      var init := cs[..|cs| - 1];
      RowPairsOrder(row, init, targetRow, targetCol);
      RowPairsMembers(row, init, targetRow, targetCol);
      assert cs == init + [cs[|cs| - 1]];
      if cs[|cs| - 1] == targetCol {
        assert targetCol !in init;
      }
    }
  }

  /** With increasing row and column lists, the pushed pairs come in row-major order. */
  lemma {:induction false} PairsOrder(rs: seq<int>, cs: seq<int>, targetRow: int, targetCol: int)
    requires Increasing(rs) && Increasing(cs)
    ensures RowMajor(Pairs(rs, cs, targetRow, targetCol))
  {
    if rs != [] {
      var init, last := rs[..|rs| - 1], rs[|rs| - 1];
      PairsOrder(init, cs, targetRow, targetCol);
      PairsMembers(init, cs, targetRow, targetCol);
      RowPairsOrder(last, cs, targetRow, targetCol);
      RowPairsMembers(last, cs, targetRow, targetCol);
      var a, b := Pairs(init, cs, targetRow, targetCol), RowPairs(last, cs, targetRow, targetCol);
      assert forall p :: p in a ==> p.0 < last;
      assert forall p :: p in b ==> p.0 == last;
      forall i, j | 0 <= i < j < |a + b|
        ensures Before((a + b)[i], (a + b)[j])
      {
        if j >= |a| && i < |a| {
          assert a[i] in a && b[j - |a|] in b;
        }
      }
    }
  }

  /** There are |rs| * |cs| pushed pairs, less the target when the lists cover it. */
  lemma {:induction false} PairsLength(rs: seq<int>, cs: seq<int>, targetRow: int, targetCol: int)
    requires Increasing(rs) && Increasing(cs)
    ensures |Pairs(rs, cs, targetRow, targetCol)|
         == |rs| * |cs| - (if targetRow in rs && targetCol in cs then 1 else 0)
  {
    if rs != [] {
      var init, last := rs[..|rs| - 1], rs[|rs| - 1];
      assert |rs| * |cs| == |init| * |cs| + |cs|;
      PairsLength(init, cs, targetRow, targetCol);
      RowPairsOrder(last, cs, targetRow, targetCol);
      assert rs == init + [last];
      var covered := targetRow in rs && targetCol in cs;
      var coveredInit := targetRow in init && targetCol in cs;
      var coveredLast := last == targetRow && targetCol in cs;
      assert covered <==> coveredInit || coveredLast;
      assert coveredLast ==> !coveredInit;
    }
  }

  lemma {:induction false} PairsWithoutColumns(rs: seq<int>, targetRow: int, targetCol: int)
    ensures Pairs(rs, [], targetRow, targetCol) == []
  {
    if rs != [] {
      PairsWithoutColumns(rs[..|rs| - 1], targetRow, targetCol);
    }
  }

  /**
   * neighborPairs(rows, cols, targetRow, targetCol) as a value: the cells of the
   * clipped 3x3 window around the target, target excluded, row by row.
   */
  function Neighbors(rows: int, cols: int, targetRow: int, targetCol: int): (ns: seq<(int, int)>)
    requires 0 <= targetRow < rows && 0 <= targetCol < cols
    ensures forall p :: p in ns ==> 0 <= p.0 < rows && 0 <= p.1 < cols
    ensures forall p :: p in ns ==> p.0 != targetRow || p.1 != targetCol
  {
    SpanMembers(rows, targetRow);
    SpanMembers(cols, targetCol);
    PairsMembers(Span(rows, targetRow), Span(cols, targetCol), targetRow, targetCol);
    Pairs(Span(rows, targetRow), Span(cols, targetCol), targetRow, targetCol)
  }

  /** One more column of the inner loop pushes at most that one pair. */
  lemma RowPairsSnoc(row: int, cs: seq<int>, targetRow: int, targetCol: int, j: int)
    requires 0 <= j < |cs|
    ensures RowPairs(row, cs[..j + 1], targetRow, targetCol)
      == RowPairs(row, cs[..j], targetRow, targetCol)
         + (if row != targetRow || cs[j] != targetCol then [(row, cs[j])] else [])
  {
    assert cs[..j + 1][..j] == cs[..j];
  }

  /** One more row of the outer loop pushes that row's pairs. */
  lemma PairsSnoc(rs: seq<int>, cs: seq<int>, targetRow: int, targetCol: int, i: int)
    requires 0 <= i < |rs|
    ensures Pairs(rs[..i + 1], cs, targetRow, targetCol)
      == Pairs(rs[..i], cs, targetRow, targetCol) + RowPairs(rs[i], cs, targetRow, targetCol)
  {
    assert rs[..i + 1][..i] == rs[..i];
  }

  /**
   * neighborPairs pushes each window cell other than the target into `elems`, the
   * column loop nested in the row loop.
   */
  method NeighborPairs(rows: int, cols: int, targetRow: int, targetCol: int)
    returns (elems: seq<(int, int)>)
    requires 0 <= targetRow < rows && 0 <= targetCol < cols
    ensures elems == Neighbors(rows, cols, targetRow, targetCol)
  {
    elems := [];
    var rowStart, rowEnd := Max(0, targetRow - 1), Min(targetRow + 1, rows - 1);
    var colStart, colEnd := Max(0, targetCol - 1), Min(targetCol + 1, cols - 1);
    var rowRange := MakeRange(rowStart, Some(rowEnd), true);
    var colRange := MakeRange(colStart, Some(colEnd), true);
    var i := 0;
    while i < |rowRange|
      invariant 0 <= i <= |rowRange|
      invariant elems == Pairs(rowRange[..i], colRange, targetRow, targetCol)
    {
      var row := rowRange[i];
      var j := 0;
      while j < |colRange|
        invariant 0 <= j <= |colRange|
        invariant elems == Pairs(rowRange[..i], colRange, targetRow, targetCol)
                         + RowPairs(row, colRange[..j], targetRow, targetCol)
      {
        var col := colRange[j];
        RowPairsSnoc(row, colRange, targetRow, targetCol, j);
        if row != targetRow || col != targetCol {
          elems := elems + [(row, col)];
        }
        j := j + 1;
      }
      assert colRange[..j] == colRange;
      PairsSnoc(rowRange, colRange, targetRow, targetCol, i);
      i := i + 1;
    }
    assert rowRange[..i] == rowRange;
  }

  /**
   * On a board of at least 2 rows and 2 columns the neighbours are exactly the cells
   * in bounds at row and column distance at most 1, the target excluded.
   */
  lemma NeighborsAreMooreNeighborhood(rows: int, cols: int, targetRow: int, targetCol: int)
    requires 0 <= targetRow < rows && 0 <= targetCol < cols
    requires rows >= 2 && cols >= 2
    ensures forall p :: p in Neighbors(rows, cols, targetRow, targetCol) <==>
      0 <= p.0 < rows && 0 <= p.1 < cols
      && -1 <= p.0 - targetRow <= 1 && -1 <= p.1 - targetCol <= 1
      && (p.0 != targetRow || p.1 != targetCol)
  {
    SpanMembers(rows, targetRow);
    SpanMembers(cols, targetCol);
    PairsMembers(Span(rows, targetRow), Span(cols, targetCol), targetRow, targetCol);
  }

  /** On a board of one row or one column no cell has any neighbour at all. */
  lemma NeighborsOfThinBoard(rows: int, cols: int, targetRow: int, targetCol: int)
    requires 0 <= targetRow < rows && 0 <= targetCol < cols
    requires rows == 1 || cols == 1
    ensures Neighbors(rows, cols, targetRow, targetCol) == []
  {
    SpanMembers(rows, targetRow);
    SpanMembers(cols, targetCol);
    if rows != 1 {
      PairsWithoutColumns(Span(rows, targetRow), targetRow, targetCol);
    }
  }

  /**
   * q touches p: another cell of a board of at least 2 x 2, at most one row and one
   * column away.
   */
  predicate Adjacent(rows: int, cols: int, p: (int, int), q: (int, int))
  {
    && rows >= 2 && cols >= 2
    && 0 <= q.0 < rows && 0 <= q.1 < cols
    && -1 <= q.0 - p.0 <= 1 && -1 <= q.1 - p.1 <= 1
    && q != p
  }

  /** Every pair neighborPairs lists touches the target. */
  lemma NeighborIsAdjacent(rows: int, cols: int, p: (int, int), q: (int, int))
    requires 0 <= p.0 < rows && 0 <= p.1 < cols && q in Neighbors(rows, cols, p.0, p.1)
    ensures Adjacent(rows, cols, p, q)
  {
    if rows >= 2 && cols >= 2 {
      NeighborsAreMooreNeighborhood(rows, cols, p.0, p.1);
    } else {
      NeighborsOfThinBoard(rows, cols, p.0, p.1);
    }
  }

  /** Neighbours come in row-major order, so each at most once, and at most 8 of them. */
  lemma NeighborsRowMajor(rows: int, cols: int, targetRow: int, targetCol: int)
    requires 0 <= targetRow < rows && 0 <= targetCol < cols
    ensures RowMajor(Neighbors(rows, cols, targetRow, targetCol))
    ensures |Neighbors(rows, cols, targetRow, targetCol)| <= 8
  {
    var rs, cs := Span(rows, targetRow), Span(cols, targetCol);
    SpanMembers(rows, targetRow);
    SpanMembers(cols, targetCol);
    PairsOrder(rs, cs, targetRow, targetCol);
    PairsLength(rs, cs, targetRow, targetCol);
    if rows >= 2 && cols >= 2 {
      assert targetRow in rs && targetCol in cs;
      assert |rs| * |cs| <= 3 * 3;
    } else if rows == 1 {
      assert |rs| == 0;
    } else {
      assert |cs| == 0;
    }
  }

  // ----- countNeighbors -----

  ghost predicate AllInBounds(g: Grid, ps: seq<(int, int)>)
  {
    Rectangular(g) && forall p :: p in ps ==> InBounds(g, p.0, p.1)
  }

  /** `.filter(([r, c]) => grid[r][c].contents.type == 'mine').length` */
  function MinesAmong(g: Grid, ps: seq<(int, int)>): (n: nat)
    requires AllInBounds(g, ps)
    ensures n <= |ps|
    ensures n == 0 <==> forall p :: p in ps ==> !IsMine(g[p.0][p.1])
  {
    if ps == [] then 0
    else
      var last := ps[|ps| - 1];
      assert ps == ps[..|ps| - 1] + [last];
      MinesAmong(g, ps[..|ps| - 1]) + (if IsMine(g[last.0][last.1]) then 1 else 0)
  }

  /** countNeighbors(grid, row, col): the mines among the cell's neighborPairs. */
  function CountNeighbors(g: Grid, row: int, col: int): (n: nat)
    requires Rectangular(g) && InBounds(g, row, col)
    ensures n <= 8
    ensures n == 0 <==> forall p :: p in Neighbors(|g|, Cols(g), row, col) ==> !IsMine(g[p.0][p.1])
  {
    NeighborsRowMajor(|g|, Cols(g), row, col);
    MinesAmong(g, Neighbors(|g|, |g[0]|, row, col))
  }

  /** Every free cell shows the number of mines among its neighbours. */
  ghost predicate CountsConsistent(g: Grid)
  {
    Rectangular(g) &&
    forall i, j {:trigger CountNeighbors(g, i, j)} :: InBounds(g, i, j) && g[i][j].contents.Free? ==>
      g[i][j].contents.neighbors == CountNeighbors(g, i, j)
  }

  /** Mines in the same places, cell by cell. */
  ghost predicate SameMines(g: Grid, h: Grid)
  {
    SameShape(g, h) && forall i, j :: InBounds(g, i, j) ==> IsMine(h[i][j]) == IsMine(g[i][j])
  }

  lemma {:induction false} MinesAmongSameMines(g: Grid, h: Grid, ps: seq<(int, int)>)
    requires SameMines(g, h) && AllInBounds(g, ps)
    ensures AllInBounds(h, ps) && MinesAmong(h, ps) == MinesAmong(g, ps)
  {
    if ps != [] {
      MinesAmongSameMines(g, h, ps[..|ps| - 1]);
    }
  }

  /** Neighbour counts depend on where the mines are, nothing else. */
  lemma CountNeighborsSameMines(g: Grid, h: Grid, row: int, col: int)
    requires SameMines(g, h) && InBounds(g, row, col)
    ensures CountNeighbors(h, row, col) == CountNeighbors(g, row, col)
  {
    MinesAmongSameMines(g, h, Neighbors(|g|, Cols(g), row, col));
  }

  /** A grid with the same contents as a consistent grid is consistent. */
  lemma ConsistentTransfer(g: Grid, h: Grid)
    requires SameContents(g, h) && CountsConsistent(g)
    ensures CountsConsistent(h)
  {
    forall i, j | InBounds(h, i, j) && h[i][j].contents.Free?
      ensures h[i][j].contents.neighbors == CountNeighbors(h, i, j)
    {
      CountNeighborsSameMines(g, h, i, j);
    }
  }

  /** A free cell that counts no mines has no mine among its neighbours. */
  lemma ZeroCellHasNoMineAround(g: Grid, row: int, col: int, p: (int, int))
    requires CountsConsistent(g) && InBounds(g, row, col)
    requires g[row][col].contents == Free(0)
    requires p in Neighbors(|g|, Cols(g), row, col)
    ensures !IsMine(g[p.0][p.1])
  {
    assert CountNeighbors(g, row, col) == 0;
  }

  /** Cells before (row, col) in row-major order show their count in grid. */
  ghost predicate FilledBefore(grid: Grid, counted: Grid, row: int, col: int)
    requires SameMines(grid, counted)
  {
    forall i, j ::
      InBounds(grid, i, j) && (i < row || (i == row && j < col)) && counted[i][j].contents.Free?
      ==> counted[i][j].contents.neighbors == CountNeighbors(grid, i, j)
  }

  /** One step of the count pass: writing the count of (row, col) keeps the pass's invariants. */
  lemma FillStep(grid: Grid, counted: Grid, row: int, col: int, n: nat)
    requires SameMines(grid, counted) && SameStates(grid, counted)
    requires InBounds(grid, row, col) && FilledBefore(grid, counted, row, col)
    requires counted[row][col].contents.Free? && n == CountNeighbors(counted, row, col)
    ensures var next := SetCell(counted, row, col, counted[row][col].(contents := Free(n)));
      SameMines(grid, next) && SameStates(grid, next) && FilledBefore(grid, next, row, col + 1)
  {
    CountNeighborsSameMines(grid, counted, row, col);
    var next := SetCell(counted, row, col, counted[row][col].(contents := Free(n)));
    assert SameMines(grid, next);
    assert SameStates(grid, next);
  }

  /**
   * The loop after planting (`makeRange(rows).forEach(... makeRange(cols).forEach(...))`):
   * every free cell gets countNeighbors of the grid as it stands; only neighbour
   * counts are written, so mines and states stay where they were.
   */
  method FillNeighborCounts(grid: Grid) returns (counted: Grid)
    requires Rectangular(grid)
    ensures SameMines(grid, counted) && SameStates(grid, counted)
    ensures CountsConsistent(counted)
  {
    counted := grid;
    var rows, cols := |grid|, Cols(grid);
    var row := 0;
    while row < rows
      invariant 0 <= row <= rows
      invariant SameMines(grid, counted) && SameStates(grid, counted)
      invariant FilledBefore(grid, counted, row, 0)
    {
      var col := 0;
      while col < cols
        invariant 0 <= col <= cols
        invariant SameMines(grid, counted) && SameStates(grid, counted)
        invariant FilledBefore(grid, counted, row, col)
      {
        if counted[row][col].contents.Free? {
          var n := CountNeighbors(counted, row, col);
          FillStep(grid, counted, row, col, n);
          counted := SetCell(counted, row, col, counted[row][col].(contents := Free(n)));
        }
        col := col + 1;
      }
      row := row + 1;
    }
    forall i, j | InBounds(counted, i, j) && counted[i][j].contents.Free?
      ensures counted[i][j].contents.neighbors == CountNeighbors(counted, i, j)
    {
      CountNeighborsSameMines(grid, counted, i, j);
    }
  }
}
