// recursiveOpen and flagRemainingCells (src/pages/MinesweeperViewModel.ts:116-141,
// textually the same as src/pages/MinesweeperContext.ts:101-126).

module Cascade {
  import opened Cells
  import opened Neighborhood

  /** Cell (i, j) went from closed in g to open in h. */
  ghost predicate Opened(g: Grid, h: Grid, i: int, j: int)
    requires SameShape(g, h) && InBounds(g, i, j)
  {
    g[i][j].state == Closed && h[i][j].state == Open
  }

  /** No neighbour of (i, j) is closed in h. */
  ghost predicate NoClosedAround(h: Grid, i: int, j: int)
    requires Rectangular(h) && InBounds(h, i, j)
  {
    forall p :: p in Neighbors(|h|, Cols(h), i, j) ==> h[p.0][p.1].state != Closed
  }

  /**
   * Every cell opened between g and h that is free with no neighbouring mine,
   * except possibly (r, c), has no closed neighbour left in h.
   */
  ghost predicate CascadeCompleteBut(g: Grid, h: Grid, r: int, c: int)
    requires SameShape(g, h)
  {
    forall i, j ::
      InBounds(g, i, j) && (i != r || j != c) && Opened(g, h, i, j) && h[i][j].contents == Free(0)
      ==> NoClosedAround(h, i, j)
  }

  /** Every opened zero cell has had all its neighbours opened (or left flagged). */
  ghost predicate CascadeComplete(g: Grid, h: Grid)
    requires SameShape(g, h)
  {
    forall i, j ::
      InBounds(g, i, j) && Opened(g, h, i, j) && h[i][j].contents == Free(0)
      ==> NoClosedAround(h, i, j)
  }

  /** No cell opened between g and h, other than (r, c), is a mine. */
  ghost predicate OpenedAreFreeBut(g: Grid, h: Grid, r: int, c: int)
    requires SameShape(g, h)
  {
    forall i, j :: InBounds(g, i, j) && (i != r || j != c) && Opened(g, h, i, j) ==> !IsMine(h[i][j])
  }

  /** q is the start cell (r, c) or a cell opened between g and h. */
  ghost predicate InFlood(g: Grid, h: Grid, r: int, c: int, q: (int, int))
    requires SameShape(g, h)
  {
    q == (r, c) || (InBounds(g, q.0, q.1) && Opened(g, h, q.0, q.1))
  }

  /**
   * Cell q was opened from its recorded parent: an opened zero cell of lower rank
   * that lists q among its neighbours.
   */
  ghost predicate OpenedFrom(g: Grid, h: Grid, q: (int, int),
                             parent: map<(int, int), (int, int)>, rank: map<(int, int), nat>)
    requires SameShape(g, h)
  {
    && q in parent && q in rank && parent[q] in rank && rank[parent[q]] < rank[q]
    && var p := parent[q];
       && InBounds(g, p.0, p.1) && Opened(g, h, p.0, p.1) && h[p.0][p.1].contents == Free(0)
       && q in Neighbors(|g|, Cols(g), p.0, p.1)
  }

  /**
   * parent and rank record how the cells opened between g and h were reached from
   * (r, c): every opened cell other than (r, c) has a parent, of lower rank, that is
   * an opened zero cell next to it. Following parents therefore ends at (r, c).
   */
  ghost predicate OpeningForest(g: Grid, h: Grid, r: int, c: int,
                                parent: map<(int, int), (int, int)>, rank: map<(int, int), nat>)
    requires SameShape(g, h)
  {
    && (forall q :: q in parent ==> InFlood(g, h, r, c, q))
    && (forall q :: q in rank ==> InFlood(g, h, r, c, q))
    && forall i, j :: InBounds(g, i, j) && (i != r || j != c) && Opened(g, h, i, j) ==>
         OpenedFrom(g, h, (i, j), parent, rank)
  }

  /** Every cell opened between g and h was reached from (r, c) through opened zero cells. */
  ghost predicate FloodFrom(g: Grid, h: Grid, r: int, c: int)
    requires SameShape(g, h)
  {
    exists parent, rank :: OpeningForest(g, h, r, c, parent, rank)
  }

  /** Flooding can step from p to q: p is a zero cell in h and q touches it. */
  ghost predicate FloodStep(g: Grid, h: Grid, p: (int, int), q: (int, int))
    requires SameShape(g, h)
  {
    InBounds(g, p.0, p.1) && h[p.0][p.1].contents == Free(0) && Adjacent(|g|, Cols(g), p, q)
  }

  /**
   * A chain of cells opened between g and h in which every step goes from an opened
   * zero cell to one of its neighbours: a single opened cell, or a shorter chain
   * ending on a zero cell followed by a neighbour of it.
   */
  ghost predicate FloodPath(g: Grid, h: Grid, path: seq<(int, int)>)
    requires SameShape(g, h)
    decreases |path|
  {
    && |path| >= 1
    && var q := path[|path| - 1];
       && InBounds(g, q.0, q.1) && Opened(g, h, q.0, q.1)
       && (|path| >= 2 ==> FloodPath(g, h, path[..|path| - 1]) && FloodStep(g, h, path[|path| - 2], q))
  }

  lemma OnlyOpensTrans(g: Grid, h: Grid, k: Grid)
    requires OnlyOpens(g, h) && OnlyOpens(h, k)
    ensures OnlyOpens(g, k)
  {
  }

  /** Cells never close again, so "no closed neighbour" survives further opening. */
  lemma NoClosedAroundStays(h: Grid, k: Grid, i: int, j: int)
    requires StatesOnlyOpen(h, k) && InBounds(h, i, j) && NoClosedAround(h, i, j)
    ensures NoClosedAround(k, i, j)
  {
  }

  /** Gluing the caller's progress to the result of one recursive call. */
  lemma CascadeCompose(g: Grid, h: Grid, k: Grid, r: int, c: int)
    requires OnlyOpens(g, h) && OnlyOpens(h, k)
    requires CascadeCompleteBut(g, h, r, c) && CascadeComplete(h, k)
    ensures OnlyOpens(g, k) && CascadeCompleteBut(g, k, r, c)
  {
    OnlyOpensTrans(g, h, k);
    forall i, j | InBounds(g, i, j) && (i != r || j != c) && Opened(g, k, i, j)
      && k[i][j].contents == Free(0)
      ensures NoClosedAround(k, i, j)
    {
      if h[i][j].state == Open {
        NoClosedAroundStays(h, k, i, j);
      }
    }
  }

  /** Opening the single cell (r, c) of g. */
  lemma OpenOne(g: Grid, r: int, c: int)
    requires Rectangular(g) && InBounds(g, r, c) && g[r][c].state == Closed
    ensures var h := SetCell(g, r, c, g[r][c].(state := Open));
      OnlyOpens(g, h) && CascadeCompleteBut(g, h, r, c) && OpenedAreFreeBut(g, h, r, c)
      && Count(h, IsNotOpen) == Count(g, IsNotOpen) - 1
  {
    CountUpdate(g, r, c, g[r][c].(state := Open), IsNotOpen);
  }

  /** Opening the start cell alone: it is the root of rank 0 and nothing else was opened. */
  lemma StartForest(g: Grid, r: int, c: int)
    requires Rectangular(g) && InBounds(g, r, c) && g[r][c].state == Closed
    ensures OpeningForest(g, SetCell(g, r, c, g[r][c].(state := Open)), r, c, map[], map[(r, c) := 0])
  {
    var h := SetCell(g, r, c, g[r][c].(state := Open));
    forall i, j | InBounds(g, i, j) && (i != r || j != c)
      ensures !Opened(g, h, i, j)
    {
    }
  }

  /**
   * The state of the neighbour loop of recursiveOpen at (row, col) on input g: h is
   * the grid so far, the first k neighbours are no longer closed, `soFar` cells have
   * been opened so far.
   */
  ghost predicate LoopProgress(g: Grid, h: Grid, row: int, col: int, ns: seq<(int, int)>, k: int, soFar: int)
    requires Rectangular(g) && InBounds(g, row, col)
  {
    && 0 <= k <= |ns|
    && (forall p :: p in ns ==> InBounds(g, p.0, p.1))
    && OnlyOpens(g, h) && h[row][col].state == Open
    && 1 <= soFar && soFar == Count(g, IsNotOpen) - Count(h, IsNotOpen)
    && (forall m :: 0 <= m < k ==> h[ns[m].0][ns[m].1].state != Closed)
    && CascadeCompleteBut(g, h, row, col)
    && (CountsConsistent(g) ==> OpenedAreFreeBut(g, h, row, col))
    && g[row][col].state == Closed
  }

  /** parent and rank record how the cells opened so far were reached from the root (row, col). */
  ghost predicate RootedForest(g: Grid, h: Grid, row: int, col: int,
                               parent: map<(int, int), (int, int)>, rank: map<(int, int), nat>)
    requires SameShape(g, h)
  {
    OpeningForest(g, h, row, col, parent, rank) && (row, col) in rank && rank[(row, col)] == 0
  }

  /** Opened-cell safety carries over a recursive call started on a mine-free neighbour. */
  lemma OpenedFreeCompose(g: Grid, h: Grid, next: Grid, row: int, col: int, r: int, c: int)
    requires OnlyOpens(g, h) && OnlyOpens(h, next) && InBounds(g, r, c)
    requires OpenedAreFreeBut(g, h, row, col) && OpenedAreFreeBut(h, next, r, c)
    requires !IsMine(g[r][c])
    ensures OpenedAreFreeBut(g, next, row, col)
  {
    OnlyOpensTrans(g, h, next);
    forall i, j | InBounds(g, i, j) && (i != row || j != col) && Opened(g, next, i, j)
      ensures !IsMine(next[i][j])
    {
      if h[i][j].state == Open {
        assert Opened(g, h, i, j);
      } else if i == r && j == c {
      } else {
        assert Opened(h, next, i, j);
      }
    }
  }

  /** Neighbours already out of the closed state stay out of it. */
  lemma PrefixStaysOpen(h: Grid, next: Grid, ns: seq<(int, int)>, k: int)
    requires StatesOnlyOpen(h, next) && 0 <= k < |ns|
    requires forall p :: p in ns ==> InBounds(h, p.0, p.1)
    requires forall m :: 0 <= m < k ==> h[ns[m].0][ns[m].1].state != Closed
    requires next[ns[k].0][ns[k].1].state == Open
    ensures forall m :: 0 <= m < k + 1 ==> next[ns[m].0][ns[m].1].state != Closed
  {
    forall m | 0 <= m < k + 1
      ensures next[ns[m].0][ns[m].1].state != Closed
    {
      assert ns[m] in ns;
    }
  }

  /** A flood path ending on an opened zero cell extends to an opened neighbour of it. */
  lemma FloodPathSnoc(g: Grid, h: Grid, path: seq<(int, int)>, q: (int, int))
    requires SameShape(g, h) && FloodPath(g, h, path) && FloodStep(g, h, path[|path| - 1], q)
    requires InBounds(g, q.0, q.1) && Opened(g, h, q.0, q.1)
    ensures FloodPath(g, h, path + [q])
  {
    assert (path + [q])[..|path|] == path;
  }

  /** Following parents from an opened cell back to (r, c) gives a flood path. */
  lemma {:induction false} PathFromParents(g: Grid, h: Grid, r: int, c: int,
                                           parent: map<(int, int), (int, int)>, rank: map<(int, int), nat>,
                                           q: (int, int))
    returns (path: seq<(int, int)>)
    requires SameShape(g, h) && OpeningForest(g, h, r, c, parent, rank)
    requires InBounds(g, q.0, q.1) && Opened(g, h, q.0, q.1)
    ensures |path| >= 1 && path[0] == (r, c) && path[|path| - 1] == q && FloodPath(g, h, path)
    decreases if q in rank then rank[q] else 0
  {
    if q == (r, c) {
      path := [q];
    } else {
      assert OpenedFrom(g, h, (q.0, q.1), parent, rank);
      var p := parent[q];
      var prefix := PathFromParents(g, h, r, c, parent, rank, p);
      NeighborIsAdjacent(|g|, Cols(g), p, q);
      FloodPathSnoc(g, h, prefix, q);
      path := prefix + [q];
    }
  }

  /**
   * Every cell opened between g and h when flooding from (r, c) is the end of a chain
   * that starts at (r, c) and steps from opened zero cell to neighbour.
   */
  lemma FloodReachesOpened(g: Grid, h: Grid, r: int, c: int, i: int, j: int)
    returns (path: seq<(int, int)>)
    requires SameShape(g, h) && FloodFrom(g, h, r, c)
    requires InBounds(g, i, j) && Opened(g, h, i, j)
    ensures |path| >= 1 && path[0] == (r, c) && path[|path| - 1] == (i, j) && FloodPath(g, h, path)
  {
    var parent: map<(int, int), (int, int)>, rank: map<(int, int), nat> :| OpeningForest(g, h, r, c, parent, rank);
    path := PathFromParents(g, h, r, c, parent, rank, (i, j));
  }

  /**
   * The flood only looks at the states of the starting grid, so it carries over to a
   * grid with the same states, such as the board before the mines were planted.
   */
  lemma FloodFromSameStates(g: Grid, p: Grid, h: Grid, r: int, c: int)
    requires SameStates(g, p) && SameShape(p, h) && FloodFrom(p, h, r, c)
    ensures FloodFrom(g, h, r, c)
  {
    var parent: map<(int, int), (int, int)>, rank: map<(int, int), nat> :| OpeningForest(p, h, r, c, parent, rank);
    forall q | InFlood(p, h, r, c, q)
      ensures InFlood(g, h, r, c, q)
    {
    }
    forall i, j | InBounds(g, i, j) && (i != r || j != c) && Opened(g, h, i, j)
      ensures OpenedFrom(g, h, (i, j), parent, rank)
    {
      assert Opened(p, h, i, j);
      var q := parent[(i, j)];
      assert Opened(p, h, q.0, q.1);
    }
    assert OpeningForest(g, h, r, c, parent, rank);
  }

  /** Opening the same cell of two grids with the same states gives grids with the same states. */
  lemma OpenOneSameStates(g: Grid, p: Grid, r: int, c: int)
    requires SameStates(g, p) && InBounds(g, r, c)
    ensures SameStates(SetCell(g, r, c, g[r][c].(state := Open)), SetCell(p, r, c, p[r][c].(state := Open)))
  {
  }

  /** The parents after hanging the tree of a recursive call started at n under root. */
  function GraftParents(parent: map<(int, int), (int, int)>, subParent: map<(int, int), (int, int)>,
                        n: (int, int), root: (int, int)): (m: map<(int, int), (int, int)>)
    ensures m.Keys == parent.Keys + subParent.Keys + {n}
    ensures forall q :: q in parent ==> m[q] == parent[q]
    ensures n !in parent ==> m[n] == root
    ensures forall q :: q in subParent && q !in parent && q != n ==> m[q] == subParent[q]
  {
    subParent[n := root] + parent
  }

  /** The ranks after the same grafting: the subtree sits one level below a root of rank 0. */
  function GraftRanks(rank: map<(int, int), nat>, subRank: map<(int, int), nat>, n: (int, int))
    : (m: map<(int, int), nat>)
    ensures m.Keys == rank.Keys + subRank.Keys + {n}
    ensures forall q :: q in rank ==> m[q] == rank[q]
    ensures forall q :: q in subRank && q !in rank ==> m[q] == subRank[q] + 1
    ensures n !in rank ==> m[n] >= 1
  {
    (map q | q in subRank :: subRank[q] + 1)[n := if n in subRank then subRank[n] + 1 else 1] + rank
  }

  /** A cell of the flood so far stays in it when more cells open. */
  lemma FloodStays(g: Grid, h: Grid, next: Grid, row: int, col: int, q: (int, int))
    requires OnlyOpens(g, h) && OnlyOpens(h, next) && InFlood(g, h, row, col, q)
    ensures InFlood(g, next, row, col, q)
  {
  }

  /**
   * The cells flooded by a recursive call started at the closed cell n are new to the
   * flood from (row, col), whose recorded cells are all open already.
   */
  lemma SubFloodIsNew(g: Grid, h: Grid, next: Grid, row: int, col: int, n: (int, int),
                      parent: map<(int, int), (int, int)>, rank: map<(int, int), nat>, q: (int, int))
    requires OnlyOpens(g, h) && OnlyOpens(h, next) && InBounds(g, row, col) && h[row][col].state == Open
    requires InBounds(g, n.0, n.1) && h[n.0][n.1].state == Closed && next[n.0][n.1].state == Open
    requires OpeningForest(g, h, row, col, parent, rank)
    requires InFlood(h, next, n.0, n.1, q)
    ensures InFlood(g, next, row, col, q) && q !in parent && q !in rank
  {
    assert h[q.0][q.1].state == Closed;
    assert !InFlood(g, h, row, col, q);
  }

  /** A cell opened before the recursive call keeps its parent and rank. */
  lemma GraftKeepsOld(g: Grid, h: Grid, next: Grid, row: int, col: int, q: (int, int),
                      parent: map<(int, int), (int, int)>, rank: map<(int, int), nat>,
                      parent': map<(int, int), (int, int)>, rank': map<(int, int), nat>)
    requires OnlyOpens(g, h) && OnlyOpens(h, next) && InBounds(g, q.0, q.1)
    requires OpenedFrom(g, h, q, parent, rank)
    requires forall p :: p in parent ==> p in parent' && parent'[p] == parent[p]
    requires forall p :: p in rank ==> p in rank' && rank'[p] == rank[p]
    ensures OpenedFrom(g, next, q, parent', rank')
  {
  }

  /** A cell opened by the recursive call, other than its start, keeps its parent one rank down. */
  lemma GraftKeepsSub(g: Grid, h: Grid, next: Grid, n: (int, int), q: (int, int),
                      subParent: map<(int, int), (int, int)>, subRank: map<(int, int), nat>,
                      parent': map<(int, int), (int, int)>, rank': map<(int, int), nat>)
    requires OnlyOpens(g, h) && OnlyOpens(h, next) && InBounds(g, q.0, q.1)
    requires OpenedFrom(h, next, q, subParent, subRank)
    requires q in parent' && parent'[q] == subParent[q]
    requires q in rank' && rank'[q] == subRank[q] + 1
    requires var p := subParent[q]; p in rank' && rank'[p] == subRank[p] + 1
    ensures OpenedFrom(g, next, q, parent', rank')
  {
    var p := subParent[q];
    assert Opened(h, next, p.0, p.1);
  }

  /**
   * Hanging the tree of the recursive call on neighbour n below (row, col) records how
   * every cell opened so far was reached.
   */
  lemma GraftStep(g: Grid, h: Grid, next: Grid, row: int, col: int, n: (int, int),
                  parent: map<(int, int), (int, int)>, rank: map<(int, int), nat>,
                  subParent: map<(int, int), (int, int)>, subRank: map<(int, int), nat>)
    requires OnlyOpens(g, h) && OnlyOpens(h, next) && InBounds(g, row, col)
    requires Opened(g, h, row, col) && h[row][col].contents == Free(0)
    requires InBounds(g, n.0, n.1) && n in Neighbors(|g|, Cols(g), row, col)
    requires h[n.0][n.1].state == Closed && next[n.0][n.1].state == Open
    requires OpeningForest(g, h, row, col, parent, rank) && (row, col) in rank && rank[(row, col)] == 0
    requires OpeningForest(h, next, n.0, n.1, subParent, subRank)
    ensures var rank' := GraftRanks(rank, subRank, n);
      && OpeningForest(g, next, row, col, GraftParents(parent, subParent, n, (row, col)), rank')
      && (row, col) in rank' && rank'[(row, col)] == 0
  {
    var parent', rank' := GraftParents(parent, subParent, n, (row, col)), GraftRanks(rank, subRank, n);
    SubFloodIsNew(g, h, next, row, col, n, parent, rank, n);
    forall q | q in parent'
      ensures InFlood(g, next, row, col, q)
    {
      if q in parent {
        FloodStays(g, h, next, row, col, q);
      } else {
        SubFloodIsNew(g, h, next, row, col, n, parent, rank, q);
      }
    }
    forall q | q in rank'
      ensures InFlood(g, next, row, col, q)
    {
      if q in rank {
        FloodStays(g, h, next, row, col, q);
      } else {
        SubFloodIsNew(g, h, next, row, col, n, parent, rank, q);
      }
    }
    forall i, j | InBounds(g, i, j) && (i != row || j != col) && Opened(g, next, i, j)
      ensures OpenedFrom(g, next, (i, j), parent', rank')
    {
      if h[i][j].state == Open {
        assert Opened(g, h, i, j);
        GraftKeepsOld(g, h, next, row, col, (i, j), parent, rank, parent', rank');
      } else if (i, j) == n {
        assert Opened(g, next, row, col);
      } else {
        assert Opened(h, next, i, j);
        var p := subParent[(i, j)];
        SubFloodIsNew(g, h, next, row, col, n, parent, rank, (i, j));
        SubFloodIsNew(g, h, next, row, col, n, parent, rank, p);
        GraftKeepsSub(g, h, next, n, (i, j), subParent, subRank, parent', rank');
      }
    }
  }

  /** The loop body when the k-th neighbour is still closed and is opened recursively. */
  lemma LoopStepOpen(g: Grid, h: Grid, next: Grid, row: int, col: int,
                     ns: seq<(int, int)>, k: int, soFar: int, n: int)
    requires Rectangular(g) && InBounds(g, row, col) && g[row][col].contents == Free(0)
    requires ns == Neighbors(|g|, Cols(g), row, col)
    requires LoopProgress(g, h, row, col, ns, k, soFar) && k < |ns|
    requires h[ns[k].0][ns[k].1].state == Closed
    requires OnlyOpens(h, next) && 0 <= n == Count(h, IsNotOpen) - Count(next, IsNotOpen)
    requires next[ns[k].0][ns[k].1].state == Open && CascadeComplete(h, next)
    requires CountsConsistent(h) ==> OpenedAreFreeBut(h, next, ns[k].0, ns[k].1)
    ensures LoopProgress(g, next, row, col, ns, k + 1, soFar + n)
  {
    CascadeCompose(g, h, next, row, col);
    PrefixStaysOpen(h, next, ns, k);
    if CountsConsistent(g) {
      ConsistentTransfer(g, h);
      ZeroCellHasNoMineAround(g, row, col, ns[k]);
      OpenedFreeCompose(g, h, next, row, col, ns[k].0, ns[k].1);
    }
  }

  /** The loop body's grafting of the recursive call's tree below (row, col). */
  lemma ForestStep(g: Grid, h: Grid, next: Grid, row: int, col: int, ns: seq<(int, int)>, k: int,
                   parent: map<(int, int), (int, int)>, rank: map<(int, int), nat>,
                   subParent: map<(int, int), (int, int)>, subRank: map<(int, int), nat>)
    requires Rectangular(g) && InBounds(g, row, col)
    requires g[row][col].state == Closed && g[row][col].contents == Free(0)
    requires ns == Neighbors(|g|, Cols(g), row, col) && 0 <= k < |ns|
    requires OnlyOpens(g, h) && OnlyOpens(h, next) && h[row][col].state == Open
    requires InBounds(g, ns[k].0, ns[k].1)
    requires h[ns[k].0][ns[k].1].state == Closed && next[ns[k].0][ns[k].1].state == Open
    requires RootedForest(g, h, row, col, parent, rank)
    requires OpeningForest(h, next, ns[k].0, ns[k].1, subParent, subRank)
    ensures RootedForest(g, next, row, col,
                         GraftParents(parent, subParent, ns[k], (row, col)), GraftRanks(rank, subRank, ns[k]))
  {
    assert ns[k] in ns;
    GraftStep(g, h, next, row, col, ns[k], parent, rank, subParent, subRank);
  }

  /** The loop body when the k-th neighbour is not closed: nothing to do. */
  lemma LoopStepSkip(g: Grid, h: Grid, row: int, col: int, ns: seq<(int, int)>, k: int, soFar: int)
    requires Rectangular(g) && InBounds(g, row, col)
    requires LoopProgress(g, h, row, col, ns, k, soFar) && k < |ns|
    requires h[ns[k].0][ns[k].1].state != Closed
    ensures LoopProgress(g, h, row, col, ns, k + 1, soFar)
  {
  }

  /** After the loop every neighbour of (row, col) has left the closed state. */
  lemma LoopDone(g: Grid, h: Grid, row: int, col: int, ns: seq<(int, int)>, soFar: int)
    requires Rectangular(g) && InBounds(g, row, col)
    requires ns == Neighbors(|g|, Cols(g), row, col)
    requires LoopProgress(g, h, row, col, ns, |ns|, soFar)
    ensures CascadeComplete(g, h)
  {
    assert NoClosedAround(h, row, col) by {
      forall p | p in ns
        ensures h[p.0][p.1].state != Closed
      {
        var m :| 0 <= m < |ns| && ns[m] == p;
      }
    }
  }

  /**
   * recursiveOpen(cellState, row, col). A cell that is not closed is left alone and
   * counts 0. Otherwise the cell is opened and, when it is free with no neighbouring
   * mine, every neighbour still closed is opened in turn. The result is the number of
   * cells taken from closed to open; contents and flagged cells are never touched,
   * no opened zero cell keeps a closed neighbour, and every opened cell was reached
   * from (row, col) through opened zero cells. Each recursive call starts on a
   * closed cell after at least one cell has been opened, so the number of cells not
   * yet open decreases.
   */
  method RecursiveOpen(g: Grid, row: int, col: int) returns (h: Grid, openedCells: nat)
    requires Rectangular(g) && InBounds(g, row, col)
    ensures OnlyOpens(g, h)
    ensures openedCells == Count(g, IsNotOpen) - Count(h, IsNotOpen)
    ensures g[row][col].state != Closed ==> h == g && openedCells == 0
    ensures g[row][col].state == Closed ==> h[row][col].state == Open && openedCells >= 1
    ensures CascadeComplete(g, h)
    ensures CountsConsistent(g) ==> OpenedAreFreeBut(g, h, row, col)
    ensures g[row][col].state == Closed && g[row][col].contents != Free(0) ==>
      h == SetCell(g, row, col, g[row][col].(state := Open)) && openedCells == 1
    ensures FloodFrom(g, h, row, col)
    decreases Count(g, IsNotOpen)
  {
    var cell := g[row][col];
    if cell.state != Closed {
      assert OpeningForest(g, g, row, col, map[], map[]);
      return g, 0;
    }
    OpenOne(g, row, col);
    h := SetCell(g, row, col, cell.(state := Open));
    openedCells := 1;
    ghost var parent: map<(int, int), (int, int)> := map[];
    ghost var rank: map<(int, int), nat> := map[(row, col) := 0];
    StartForest(g, row, col);
    if cell.contents.Free? && cell.contents.neighbors == 0 {
      var ns := NeighborPairs(|h|, |h[0]|, row, col);
      var k := 0;
      while k < |ns|
        invariant LoopProgress(g, h, row, col, ns, k, openedCells)
        invariant RootedForest(g, h, row, col, parent, rank)
      {
        var (auxRow, auxCol) := ns[k];
        if h[auxRow][auxCol].state == Closed {
          var next, n := RecursiveOpen(h, auxRow, auxCol);
          ghost var subParent, subRank :| OpeningForest(h, next, auxRow, auxCol, subParent, subRank);
          LoopStepOpen(g, h, next, row, col, ns, k, openedCells, n);
          ForestStep(g, h, next, row, col, ns, k, parent, rank, subParent, subRank);
          parent, rank := GraftParents(parent, subParent, ns[k], (row, col)), GraftRanks(rank, subRank, ns[k]);
          h, openedCells := next, openedCells + n;
        } else {
          LoopStepSkip(g, h, row, col, ns, k, openedCells);
        }
        k := k + 1;
      }
      LoopDone(g, h, row, col, ns, openedCells);
    }
    assert OpeningForest(g, h, row, col, parent, rank);
  }

  /**
   * Opening from a cell that is not a mine, when every other opened cell is free,
   * keeps mines out of the open cells.
   */
  lemma OpeningKeepsNoOpenMine(g: Grid, h: Grid, row: int, col: int)
    requires NoOpenMine(g) && OnlyOpens(g, h) && InBounds(g, row, col)
    requires OpenedAreFreeBut(g, h, row, col) && !IsMine(g[row][col])
    ensures NoOpenMine(h)
  {
    forall i, j | InBounds(h, i, j) && h[i][j].state == Open
      ensures !IsMine(h[i][j])
    {
      if g[i][j].state == Closed {
        assert Opened(g, h, i, j);
      }
    }
  }

  /** The cell flagRemainingCells leaves: closed becomes flagged, anything else stays. */
  function FlagCell(c: Cell): Cell
  {
    if c.state == Closed then c.(state := Flagged) else c
  }

  /** The grid flagRemainingCells returns. */
  function FlagAll(g: Grid): (flagged: Grid)
    ensures |flagged| == |g|
    ensures forall i :: 0 <= i < |g| ==> |flagged[i]| == |g[i]|
    ensures forall i, j :: 0 <= i < |g| && 0 <= j < |g[i]| ==> flagged[i][j] == FlagCell(g[i][j])
  {
    seq(|g|, i requires 0 <= i < |g| => seq(|g[i]|, j requires 0 <= j < |g[i]| => FlagCell(g[i][j])))
  }

  /**
   * flagRemainingCells(cellState): a copy in which every closed cell is flagged.
   * The input is a value, so it is not modified.
   */
  method FlagRemainingCells(cellState: Grid) returns (newCellState: Grid)
    ensures newCellState == FlagAll(cellState)
  {
    newCellState := cellState;
    var i := 0;
    while i < |newCellState|
      invariant 0 <= i <= |cellState| == |newCellState|
      invariant forall a :: 0 <= a < i ==> newCellState[a] == FlagAll(cellState)[a]
      invariant forall a :: i <= a < |cellState| ==> newCellState[a] == cellState[a]
    {
      var row := newCellState[i];
      var j := 0;
      while j < |row|
        invariant 0 <= j <= |row| == |cellState[i]|
        invariant forall b :: 0 <= b < j ==> row[b] == FlagCell(cellState[i][b])
        invariant forall b :: j <= b < |row| ==> row[b] == cellState[i][b]
      {
        if row[j].state == Closed {
          row := row[j := row[j].(state := Flagged)];
        }
        j := j + 1;
      }
      newCellState := newCellState[i := row];
      i := i + 1;
    }
  }

  /**
   * Flagging the remaining cells leaves no closed cell, changes no contents, opens
   * nothing and closes nothing, so the count of cells not open is the same; a grid
   * without closed cells is its own result.
   */
  lemma FlagAllProperties(g: Grid)
    requires Rectangular(g)
    ensures NoClosed(FlagAll(g)) && SameContents(g, FlagAll(g))
    ensures Count(FlagAll(g), IsNotOpen) == Count(g, IsNotOpen)
    ensures Count(FlagAll(g), IsMine) == Count(g, IsMine)
    ensures NoClosed(g) ==> FlagAll(g) == g
  {
    CountPointwise(g, FlagAll(g), IsNotOpen, IsNotOpen);
    CountPointwise(g, FlagAll(g), IsMine, IsMine);
    if NoClosed(g) {
      assert forall i :: 0 <= i < |g| ==> FlagAll(g)[i] == g[i];
    }
  }

  /**
   * onCellFlag's write: switching one unopened cell between closed and flagged keeps
   * its contents and the unopened and mine counts, moves the flag count by that one
   * cell, and keeps the neighbour counts and the open cells as they were.
   */
  lemma FlagToggleKeeps(g: Grid, row: int, col: int, newCell: Cell)
    requires Rectangular(g) && InBounds(g, row, col) && g[row][col].state != Open
    requires newCell.contents == g[row][col].contents && newCell.state != Open
    ensures var h := SetCell(g, row, col, newCell);
      && SameContents(g, h)
      && Count(h, IsNotOpen) == Count(g, IsNotOpen)
      && Count(h, IsMine) == Count(g, IsMine)
      && Count(h, IsFlagged) == Count(g, IsFlagged)
           - (if IsFlagged(g[row][col]) then 1 else 0) + (if IsFlagged(newCell) then 1 else 0)
      && (CountsConsistent(g) ==> CountsConsistent(h))
      && (NoOpenMine(g) ==> NoOpenMine(h))
  {
    var h := SetCell(g, row, col, newCell);
    CountUpdate(g, row, col, newCell, IsFlagged);
    CountUpdate(g, row, col, newCell, IsNotOpen);
    CountUpdate(g, row, col, newCell, IsMine);
    assert SameContents(g, h);
    if CountsConsistent(g) {
      ConsistentTransfer(g, h);
    }
  }
}
