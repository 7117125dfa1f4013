/** The board as a value: which cells are occupied, whether a footprint may
    be placed, what committing it and clearing completed lines leave behind,
    and whether any move is left. The scene in module Scene changes its grid
    only in the ways these functions describe. */
module Grid {
  import opened Box

  /** Rows and columns of the square board (`gridSize`). */
  const GridSize: int := 10

  /** Identity of the node that draws an occupied cell; the engine only
      stores it and never looks inside. */
  type Tile = nat

  /** A cell is empty (`nil`) or holds the node drawn in it. */
  datatype Cell = Empty | Filled(tile: Tile)

  /** The grid, row by row. */
  type Board = seq<seq<Cell>>

  predicate InBounds(row: int, col: int) {
    0 <= row < GridSize && 0 <= col < GridSize
  }

  /** The grid is always exactly GridSize x GridSize. */
  predicate IsBoard(g: Board) {
    |g| == GridSize && forall r :: 0 <= r < GridSize ==> |g[r]| == GridSize
  }

  /** The grid the scene starts from and restarts with. */
  function EmptyBoard(): (g: Board)
    ensures IsBoard(g)
    ensures forall r, c :: InBounds(r, c) ==> g[r][c] == Empty
  {
    seq(GridSize, _ => seq(GridSize, _ => Empty))
  }

  /** Two boards that agree on every cell are the same board. */
  lemma BoardExtensionality(a: Board, b: Board)
    requires IsBoard(a) && IsBoard(b)
    requires forall r, c :: InBounds(r, c) ==> a[r][c] == b[r][c]
    ensures a == b
  {
    forall r | 0 <= r < GridSize
      ensures a[r] == b[r]
    {
      assert forall c :: 0 <= c < GridSize ==> a[r][c] == b[r][c];
    }
  }

  // ---------------------------------------------------------------------
  // Occupancy and the legality of a placement
  // ---------------------------------------------------------------------

  /** `isCellOccupied`: a cell off the board reads as occupied, so that one
      test covers both the bounds and the occupancy of a cell. */
  function Occupied(g: Board, row: int, col: int): (occupied: bool)
    requires IsBoard(g)
    ensures !InBounds(row, col) ==> occupied
    ensures InBounds(row, col) ==> (occupied <==> g[row][col] != Empty)
  {
    !InBounds(row, col) || g[row][col].Filled?
  }

  /** What `isPlacementValid` decides: every cell of the footprint anchored
      at (row, col) is on the board and empty. */
  ghost predicate Fits(g: Board, s: Shape, row: int, col: int)
    requires IsBoard(g)
  {
    forall r, c :: s.Covers(row, col, r, c) ==> InBounds(r, c) && g[r][c] == Empty
  }

  /** The explicit bounds and emptiness tests of `isPlacementValid` agree
      with asking `isCellOccupied` of every footprint cell. */
  lemma FitsIffFootprintUnoccupied(g: Board, s: Shape, row: int, col: int)
    requires IsBoard(g)
    ensures Fits(g, s, row, col) <==> forall r, c :: s.Covers(row, col, r, c) ==> !Occupied(g, r, c)
  {
  }

  /** The anchor of a legal placement is itself an empty cell. */
  lemma {:induction false} FitsAnchorFree(g: Board, s: Shape, row: int, col: int)
    requires IsBoard(g) && s.WellFormed() && Fits(g, s, row, col)
    ensures InBounds(row, col) && !Occupied(g, row, col)
  {
    assert s.Covers(row, col, row, col);
  }

  /** A legal footprint lies wholly inside the board. */
  lemma {:induction false} FitsWithinBoard(g: Board, s: Shape, row: int, col: int)
    requires IsBoard(g) && s.WellFormed() && Fits(g, s, row, col)
    ensures 0 <= row && row + s.height <= GridSize
    ensures 0 <= col && col + s.width <= GridSize
  {
    assert s.Covers(row, col, row, col);
    assert s.Covers(row, col, row + s.height - 1, col + s.width - 1);
  }

  // ---------------------------------------------------------------------
  // Committing a placement
  // ---------------------------------------------------------------------

  /** The grid after the footprint anchored at (row, col) is filled with `tile`. */
  function Placed(g: Board, s: Shape, row: int, col: int, tile: Tile): (g': Board)
    requires IsBoard(g)
    ensures IsBoard(g')
  {
    seq(GridSize, r requires 0 <= r < GridSize =>
      seq(GridSize, c requires 0 <= c < GridSize =>
        if s.Covers(row, col, r, c) then Filled(tile) else g[r][c]))
  }

  /** A legal placement changes exactly the cells of its footprint, and
      each of them goes from empty to occupied. */
  lemma PlacedChangesExactlyFootprint(g: Board, s: Shape, row: int, col: int, tile: Tile)
    requires IsBoard(g) && Fits(g, s, row, col)
    ensures forall r, c :: InBounds(r, c) ==>
              (Placed(g, s, row, col, tile)[r][c] != g[r][c] <==> s.Covers(row, col, r, c))
    ensures forall r, c :: s.Covers(row, col, r, c) ==>
              InBounds(r, c) && g[r][c] == Empty && Placed(g, s, row, col, tile)[r][c] == Filled(tile)
  {
  }

  /** Number of occupied cells in a list of cells. */
  function FilledCount(cells: seq<Cell>): nat
  {
    if cells == [] then 0
    else FilledCount(cells[..|cells| - 1]) + (if cells[|cells| - 1].Filled? then 1 else 0)
  }

  /** Number of occupied cells in a list of rows. */
  function BoardFilledCount(rows: seq<seq<Cell>>): nat
  {
    if rows == [] then 0
    else BoardFilledCount(rows[..|rows| - 1]) + FilledCount(rows[|rows| - 1])
  }

  /** How many of the indices 0 .. n-1 lie in lo .. hi-1. */
  function Overlap(n: int, lo: int, hi: int): int
    requires lo <= hi
  {
    if n <= lo then 0 else if n >= hi then hi - lo else n - lo
  }

  /** A list of cells in which every cell is occupied counts all of them. */
  lemma {:induction false} FilledCountAllFilled(cells: seq<Cell>)
    requires forall i :: 0 <= i < |cells| ==> cells[i].Filled?
    ensures FilledCount(cells) == |cells|
  {
    if cells != [] {
      FilledCountAllFilled(cells[..|cells| - 1]);
    }
  }

  /** A list of empty cells counts none. */
  lemma {:induction false} FilledCountAllEmpty(cells: seq<Cell>)
    requires forall i :: 0 <= i < |cells| ==> cells[i] == Empty
    ensures FilledCount(cells) == 0
  {
    if cells != [] {
      FilledCountAllEmpty(cells[..|cells| - 1]);
    }
  }

  /** Filling the empty cells lo .. hi-1 of a list and nothing else adds
      one to the count for each of them. */
  lemma {:induction false} FilledCountAfterFill(a: seq<Cell>, b: seq<Cell>, lo: int, hi: int)
    requires |a| == |b| && 0 <= lo <= hi
    requires forall i :: 0 <= i < |a| && lo <= i < hi ==> a[i] == Empty && b[i].Filled?
    requires forall i :: 0 <= i < |a| && !(lo <= i < hi) ==> b[i] == a[i]
    ensures FilledCount(b) == FilledCount(a) + Overlap(|a|, lo, hi)
  {
    if a != [] {
      var n := |a|;
      FilledCountAfterFill(a[..n - 1], b[..n - 1], lo, hi);
    }
  }

  /** Row by row: if rows lo .. hi-1 each gain `width` occupied cells and the
      other rows none, the first `n` rows gain `width` per row of them in lo .. hi-1. */
  lemma {:induction false} BoardFilledCountAfterFill(a: seq<seq<Cell>>, b: seq<seq<Cell>>, lo: int, hi: int, width: int, n: nat)
    requires n <= |a| == |b| && 0 <= lo <= hi
    requires forall i :: 0 <= i < |a| && lo <= i < hi ==> FilledCount(b[i]) == FilledCount(a[i]) + width
    requires forall i :: 0 <= i < |a| && !(lo <= i < hi) ==> FilledCount(b[i]) == FilledCount(a[i])
    ensures BoardFilledCount(b[..n]) == BoardFilledCount(a[..n]) + width * Overlap(n, lo, hi)
  {
    if n > 0 {
      var m := n - 1;
      BoardFilledCountAfterFill(a, b, lo, hi, width, m);
      var an, bn := a[..n], b[..n];
      assert an[..m] == a[..m] && bn[..m] == b[..m];
      assert an[m] == a[m] && bn[m] == b[m];
      assert BoardFilledCount(an) == BoardFilledCount(a[..m]) + FilledCount(a[m]);
      assert BoardFilledCount(bn) == BoardFilledCount(b[..m]) + FilledCount(b[m]);
      var before := Overlap(m, lo, hi);
      if lo <= m < hi {
        assert Overlap(n, lo, hi) == before + 1;
        MultiplyStep(width, before);
      } else {
        assert Overlap(n, lo, hi) == before;
      }
    }
  }

  /** The nonlinear step of the row-by-row count: one more footprint row adds `width`. */
  lemma MultiplyStep(width: int, k: int)
    ensures width * (k + 1) == width * k + width
  {
  }

  /** One row of a legal placement: a footprint row gains `width` occupied
      cells, any other row is unchanged. */
  lemma PlacedRowCount(g: Board, s: Shape, row: int, col: int, tile: Tile, r: int)
    requires IsBoard(g) && s.WellFormed() && Fits(g, s, row, col) && 0 <= r < GridSize
    ensures row <= r < row + s.height ==>
              FilledCount(Placed(g, s, row, col, tile)[r]) == FilledCount(g[r]) + s.width
    ensures !(row <= r < row + s.height) ==>
              FilledCount(Placed(g, s, row, col, tile)[r]) == FilledCount(g[r])
  {
    var p: Board := Placed(g, s, row, col, tile);
    FitsWithinBoard(g, s, row, col);
    if row <= r < row + s.height {
      forall i | 0 <= i < GridSize && col <= i < col + s.width
        ensures g[r][i] == Empty && p[r][i].Filled?
      {
        assert s.Covers(row, col, r, i);
      }
      FilledCountAfterFill(g[r], p[r], col, col + s.width);
    } else {
      assert p[r] == g[r];
    }
  }

  /** The score a placement earns, its area, is exactly the number of cells
      that became occupied. */
  lemma PlacementFillsArea(g: Board, s: Shape, row: int, col: int, tile: Tile)
    requires IsBoard(g) && s.WellFormed() && Fits(g, s, row, col)
    ensures BoardFilledCount(Placed(g, s, row, col, tile)) == BoardFilledCount(g) + s.Area()
  {
    var p: Board := Placed(g, s, row, col, tile);
    FitsWithinBoard(g, s, row, col);
    forall r | 0 <= r < GridSize
      ensures row <= r < row + s.height ==> FilledCount(p[r]) == FilledCount(g[r]) + s.width
      ensures !(row <= r < row + s.height) ==> FilledCount(p[r]) == FilledCount(g[r])
    {
      PlacedRowCount(g, s, row, col, tile, r);
    }
    BoardFilledCountAfterFill(g, p, row, row + s.height, s.width, GridSize);
    assert g[..GridSize] == g && p[..GridSize] == p;
    var k := Overlap(GridSize, row, row + s.height);
    assert k == s.height;
    assert s.width * k == s.Area();
  }

  // ---------------------------------------------------------------------
  // Completed lines
  // ---------------------------------------------------------------------

  /** Every cell of the row is occupied. */
  predicate RowFull(g: Board, row: int)
    requires IsBoard(g) && 0 <= row < GridSize
  {
    forall c :: 0 <= c < GridSize ==> g[row][c].Filled?
  }

  /** Every cell of the column is occupied. */
  predicate ColumnFull(g: Board, col: int)
    requires IsBoard(g) && 0 <= col < GridSize
  {
    forall r :: 0 <= r < GridSize ==> g[r][col].Filled?
  }

  predicate SomeRowFull(g: Board)
    requires IsBoard(g)
  {
    exists r :: 0 <= r < GridSize && RowFull(g, r)
  }

  /** Number of full rows among rows 0 .. n-1. */
  function FullRows(g: Board, n: nat): nat
    requires IsBoard(g) && n <= GridSize
  {
    if n == 0 then 0 else FullRows(g, n - 1) + (if RowFull(g, n - 1) then 1 else 0)
  }

  /** Number of full columns among columns 0 .. n-1. */
  function FullColumns(g: Board, n: nat): nat
    requires IsBoard(g) && n <= GridSize
  {
    if n == 0 then 0 else FullColumns(g, n - 1) + (if ColumnFull(g, n - 1) then 1 else 0)
  }

  /** The cells of one column, top to bottom. */
  function ColumnCells(g: Board, col: int): (cells: seq<Cell>)
    requires IsBoard(g) && 0 <= col < GridSize
    ensures |cells| == GridSize && forall r :: 0 <= r < GridSize ==> cells[r] == g[r][col]
  {
    seq(GridSize, r requires 0 <= r < GridSize => g[r][col])
  }

  /** `h` is `g` after the row pass of `checkForCompletedLines`: the rows of
      `g` that are full are emptied. Clearing one row never changes whether
      another row is full, so testing each row against the updated grid is
      testing it against `g`. */
  ghost predicate RowPassOf(g: Board, h: Board)
    requires IsBoard(g)
  {
    IsBoard(h) &&
    forall r, c :: InBounds(r, c) ==> h[r][c] == if RowFull(g, r) then Empty else g[r][c]
  }

  /** `h` is `g` after the column pass: the columns of `g` that are full are emptied. */
  ghost predicate ColumnPassOf(g: Board, h: Board)
    requires IsBoard(g)
  {
    IsBoard(h) &&
    forall r, c :: InBounds(r, c) ==> h[r][c] == if ColumnFull(g, c) then Empty else g[r][c]
  }

  /** A cell after `checkForCompletedLines`. Rows are cleared first and
      columns are tested afterwards against the updated grid; a cleared row
      leaves an empty cell in every column, so columns are cleared only in a
      call that completed no row. */
  function ClearedCell(g: Board, row: int, col: int): Cell
    requires IsBoard(g) && InBounds(row, col)
  {
    if SomeRowFull(g) then (if RowFull(g, row) then Empty else g[row][col])
    else if ColumnFull(g, col) then Empty
    else g[row][col]
  }

  /** The grid after `checkForCompletedLines`. */
  function LinesCleared(g: Board): (g': Board)
    requires IsBoard(g)
    ensures IsBoard(g')
  {
    seq(GridSize, r requires 0 <= r < GridSize =>
      seq(GridSize, c requires 0 <= c < GridSize => ClearedCell(g, r, c)))
  }

  /** The score `checkForCompletedLines` adds: one point per cell of each
      cleared line. */
  function LineClearAward(g: Board): nat
    requires IsBoard(g)
  {
    GridSize * (if SomeRowFull(g) then FullRows(g, GridSize) else FullColumns(g, GridSize))
  }

  /** The row pass followed by a column pass over its result is exactly
      LinesCleared, and the points the two passes award are LineClearAward:
      once a row has been cleared, no column can be full. */
  lemma SequentialPassesClearLines(g: Board, g1: Board, g2: Board)
    requires IsBoard(g) && RowPassOf(g, g1) && ColumnPassOf(g1, g2)
    ensures g2 == LinesCleared(g)
    ensures GridSize * FullRows(g, GridSize) + GridSize * FullColumns(g1, GridSize) == LineClearAward(g)
  {
    if SomeRowFull(g) {
      var r0 :| 0 <= r0 < GridSize && RowFull(g, r0);
      forall c | 0 <= c < GridSize ensures !ColumnFull(g1, c) {
        assert g1[r0][c] == Empty;
      }
      NoFullColumnsCountsZero(g1, GridSize);
    } else {
      forall c | 0 <= c < GridSize ensures ColumnFull(g1, c) == ColumnFull(g, c) {
        assert forall r :: 0 <= r < GridSize ==> g1[r][c] == g[r][c];
      }
      NoFullRowsCountsZero(g, GridSize);
      FullColumnsAgree(g1, g, GridSize);
    }
    BoardExtensionality(g2, LinesCleared(g));
  }

  /** With no full row, none is counted. */
  lemma {:induction false} NoFullRowsCountsZero(g: Board, n: nat)
    requires IsBoard(g) && n <= GridSize && !SomeRowFull(g)
    ensures FullRows(g, n) == 0
  {
    if n > 0 {
      NoFullRowsCountsZero(g, n - 1);
    }
  }

  /** Boards with the same full columns count the same number of them. */
  lemma {:induction false} FullColumnsAgree(a: Board, b: Board, n: nat)
    requires IsBoard(a) && IsBoard(b) && n <= GridSize
    requires forall c :: 0 <= c < GridSize ==> ColumnFull(a, c) == ColumnFull(b, c)
    ensures FullColumns(a, n) == FullColumns(b, n)
  {
    if n > 0 {
      FullColumnsAgree(a, b, n - 1);
    }
  }

  /** With `row` the only full row, the first n rows hold one full row
      exactly when they include `row`. */
  lemma {:induction false} FullRowsSingle(g: Board, row: int, n: nat)
    requires IsBoard(g) && 0 <= row < GridSize && n <= GridSize
    requires forall r :: 0 <= r < GridSize ==> (RowFull(g, r) <==> r == row)
    ensures FullRows(g, n) == if n > row then 1 else 0
  {
    if n > 0 {
      FullRowsSingle(g, row, n - 1);
    }
  }

  /** Filling the last empty cell of a row, when no row is full yet,
      completes just that row: it is emptied and the clear earns GridSize
      points, on top of the placement's one. */
  lemma CompletingOneRow(g: Board, row: int, col: int, tile: Tile)
    requires IsBoard(g) && InBounds(row, col) && g[row][col] == Empty
    requires forall c :: 0 <= c < GridSize && c != col ==> g[row][c].Filled?
    requires !SomeRowFull(g)
    ensures Fits(g, DefaultShape, row, col)
    ensures var p := Placed(g, DefaultShape, row, col, tile);
            && LineClearAward(p) == GridSize
            && (forall c :: 0 <= c < GridSize ==> LinesCleared(p)[row][c] == Empty)
            && (forall r, c :: InBounds(r, c) && r != row ==> LinesCleared(p)[r][c] == g[r][c])
  {
    var p := Placed(g, DefaultShape, row, col, tile);
    forall r | 0 <= r < GridSize
      ensures RowFull(p, r) <==> r == row
    {
      if r != row {
        assert !RowFull(g, r);
        var c :| 0 <= c < GridSize && !g[r][c].Filled?;
        assert p[r][c] == g[r][c];
      }
    }
    assert RowFull(p, row);
    FullRowsSingle(p, row, GridSize);
  }

  /** After clearing, no row and no column is full. */
  lemma NoFullLineAfterClearing(g: Board)
    requires IsBoard(g)
    ensures forall r :: 0 <= r < GridSize ==> !RowFull(LinesCleared(g), r)
    ensures forall c :: 0 <= c < GridSize ==> !ColumnFull(LinesCleared(g), c)
  {
    var h := LinesCleared(g);
    if SomeRowFull(g) {
      var r0 :| 0 <= r0 < GridSize && RowFull(g, r0);
      forall c | 0 <= c < GridSize ensures !ColumnFull(h, c) {
        assert h[r0][c] == Empty;
      }
      forall r | 0 <= r < GridSize ensures !RowFull(h, r) {
        if RowFull(g, r) {
          assert h[r][0] == Empty;
        } else {
          var c :| 0 <= c < GridSize && !g[r][c].Filled?;
          assert h[r][c] == g[r][c];
        }
      }
    } else {
      forall r | 0 <= r < GridSize ensures !RowFull(h, r) {
        assert !RowFull(g, r);
        var c :| 0 <= c < GridSize && !g[r][c].Filled?;
        assert h[r][c] == Empty;
      }
      forall c | 0 <= c < GridSize ensures !ColumnFull(h, c) {
        if ColumnFull(g, c) {
          assert h[0][c] == Empty;
        } else {
          var r :| 0 <= r < GridSize && !g[r][c].Filled?;
          assert h[r][c] == Empty;
        }
      }
    }
  }

  /** Running the line check again on its own result changes nothing. */
  lemma LinesClearedIdempotent(g: Board)
    requires IsBoard(g)
    ensures LinesCleared(LinesCleared(g)) == LinesCleared(g)
    ensures LineClearAward(LinesCleared(g)) == 0
  {
    var h := LinesCleared(g);
    NoFullLineAfterClearing(g);
    NoFullColumnsCountsZero(h, GridSize);
    BoardExtensionality(LinesCleared(h), h);
  }

  /** With no full column among the first n, none is counted. */
  lemma {:induction false} NoFullColumnsCountsZero(g: Board, n: nat)
    requires IsBoard(g) && n <= GridSize
    requires forall c :: 0 <= c < GridSize ==> !ColumnFull(g, c)
    ensures FullColumns(g, n) == 0
  {
    if n > 0 {
      NoFullColumnsCountsZero(g, n - 1);
    }
  }

  /** The score a clear earns is exactly the number of cells it empties:
      since completed rows suppress the column pass, no cell at the
      crossing of a cleared row and a cleared column is counted twice. */
  lemma ClearingAwardsRemovedCells(g: Board)
    requires IsBoard(g)
    ensures BoardFilledCount(LinesCleared(g)) + LineClearAward(g) == BoardFilledCount(g)
  {
    var h := LinesCleared(g);
    if SomeRowFull(g) {
      RowClearCounts(g, GridSize);
      assert h[..GridSize] == h && g[..GridSize] == g;
    } else {
      ColumnClearCounts(g, GridSize);
      assert h[..GridSize] == h && g[..GridSize] == g;
    }
  }

  /** Rows 0 .. n-1 when some row is full: each full row loses all its cells. */
  lemma {:induction false} RowClearCounts(g: Board, n: nat)
    requires IsBoard(g) && SomeRowFull(g) && n <= GridSize
    ensures BoardFilledCount(LinesCleared(g)[..n]) + GridSize * FullRows(g, n) == BoardFilledCount(g[..n])
  {
    var h := LinesCleared(g);
    if n > 0 {
      RowClearCounts(g, n - 1);
      assert h[..n][..n - 1] == h[..n - 1] && g[..n][..n - 1] == g[..n - 1];
      var r := n - 1;
      if RowFull(g, r) {
        FilledCountAllFilled(g[r]);
        FilledCountAllEmpty(h[r]);
      } else {
        assert h[r] == g[r];
      }
    }
  }

  /** Cells 0 .. m-1 of one row when no row is full: exactly the cells in
      full columns are lost. */
  lemma {:induction false} ColumnClearRowCount(g: Board, row: int, m: nat)
    requires IsBoard(g) && !SomeRowFull(g) && 0 <= row < GridSize && m <= GridSize
    ensures FilledCount(LinesCleared(g)[row][..m]) + FullColumns(g, m) == FilledCount(g[row][..m])
  {
    var h := LinesCleared(g);
    if m > 0 {
      ColumnClearRowCount(g, row, m - 1);
      assert h[row][..m][..m - 1] == h[row][..m - 1] && g[row][..m][..m - 1] == g[row][..m - 1];
    }
  }

  /** Rows 0 .. n-1 when no row is full: each row loses one cell per full column. */
  lemma {:induction false} ColumnClearCounts(g: Board, n: nat)
    requires IsBoard(g) && !SomeRowFull(g) && n <= GridSize
    ensures BoardFilledCount(LinesCleared(g)[..n]) + FullColumns(g, GridSize) * n == BoardFilledCount(g[..n])
  {
    var h := LinesCleared(g);
    if n > 0 {
      var r := n - 1;
      ColumnClearCounts(g, r);
      var hn, gn := h[..n], g[..n];
      assert hn[..r] == h[..r] && gn[..r] == g[..r];
      assert hn[r] == h[r] && gn[r] == g[r];
      assert BoardFilledCount(hn) == BoardFilledCount(h[..r]) + FilledCount(h[r]);
      assert BoardFilledCount(gn) == BoardFilledCount(g[..r]) + FilledCount(g[r]);
      ColumnClearRowCount(g, r, GridSize);
      assert h[r][..GridSize] == h[r] && g[r][..GridSize] == g[r];
      MultiplyStep(FullColumns(g, GridSize), r);
    }
  }

  // ---------------------------------------------------------------------
  // The move search
  // ---------------------------------------------------------------------

  /** Every catalog shape is at least one cell in each direction. */
  predicate CatalogWellFormed(catalog: seq<Shape>) {
    forall k :: 0 <= k < |catalog| ==> catalog[k].WellFormed()
  }

  /** What `checkForPossibleMoves` decides: some catalog shape fits at some
      on-board anchor. */
  ghost predicate AnyMove(g: Board, catalog: seq<Shape>)
    requires IsBoard(g)
  {
    exists r, c, k :: InBounds(r, c) && 0 <= k < |catalog| && Fits(g, catalog[k], r, c)
  }

  /** What `canSpawnBlocks` decides: some catalog shape fits at some empty
      anchor (occupied anchors are skipped before any shape is tried). */
  ghost predicate SpawnableMove(g: Board, catalog: seq<Shape>)
    requires IsBoard(g)
  {
    exists r, c, k :: InBounds(r, c) && !Occupied(g, r, c) && 0 <= k < |catalog| && Fits(g, catalog[k], r, c)
  }

  /** Skipping occupied anchors loses no move: `canSpawnBlocks` and
      `checkForPossibleMoves` always agree. */
  lemma SpawnableIffAnyMove(g: Board, catalog: seq<Shape>)
    requires IsBoard(g) && CatalogWellFormed(catalog)
    ensures SpawnableMove(g, catalog) <==> AnyMove(g, catalog)
  {
    if AnyMove(g, catalog) {
      var r, c, k :| InBounds(r, c) && 0 <= k < |catalog| && Fits(g, catalog[k], r, c);
      FitsAnchorFree(g, catalog[k], r, c);
    }
  }

  /** With the one-cell block in the catalog, a move exists exactly when
      some cell is empty: the game ends only on a full board. */
  lemma AnyMoveIffEmptyCell(g: Board, catalog: seq<Shape>)
    requires IsBoard(g) && CatalogWellFormed(catalog) && DefaultShape in catalog
    ensures AnyMove(g, catalog) <==> exists r, c :: InBounds(r, c) && g[r][c] == Empty
  {
    if AnyMove(g, catalog) {
      var r, c, k :| InBounds(r, c) && 0 <= k < |catalog| && Fits(g, catalog[k], r, c);
      FitsAnchorFree(g, catalog[k], r, c);
    }
    if exists r, c :: InBounds(r, c) && g[r][c] == Empty {
      var r, c :| InBounds(r, c) && g[r][c] == Empty;
      var k :| 0 <= k < |catalog| && catalog[k] == DefaultShape;
      forall r', c' | catalog[k].Covers(r, c, r', c')
        ensures InBounds(r', c') && g[r'][c'] == Empty
      {
        assert r' == r && c' == c;
      }
      assert InBounds(r, c) && 0 <= k < |catalog| && Fits(g, catalog[k], r, c);
    }
  }

  /** After clearing, every row has an empty cell; with the one-cell block
      in the catalog a move is therefore always left, so no valid placement
      can end the game. */
  lemma ClearedBoardKeepsMove(g: Board, catalog: seq<Shape>)
    requires IsBoard(g) && CatalogWellFormed(catalog) && DefaultShape in catalog
    ensures AnyMove(LinesCleared(g), catalog)
  {
    var h := LinesCleared(g);
    NoFullLineAfterClearing(g);
    assert !RowFull(h, 0);
    var c :| 0 <= c < GridSize && !h[0][c].Filled?;
    assert InBounds(0, c) && h[0][c] == Empty;
    AnyMoveIffEmptyCell(h, catalog);
  }

  /** No shape fits on a board with every cell occupied. */
  lemma FullBoardHasNoMove(g: Board, catalog: seq<Shape>)
    requires IsBoard(g) && CatalogWellFormed(catalog)
    requires forall r, c :: InBounds(r, c) ==> g[r][c].Filled?
    ensures !AnyMove(g, catalog)
  {
    if AnyMove(g, catalog) {
      var r, c, k :| InBounds(r, c) && 0 <= k < |catalog| && Fits(g, catalog[k], r, c);
      FitsAnchorFree(g, catalog[k], r, c);
    }
  }

  /** On the empty board any catalog shape no larger than the board fits at
      the top-left corner, so a move exists. */
  lemma EmptyBoardHasMove(catalog: seq<Shape>, k: int)
    requires 0 <= k < |catalog|
    requires catalog[k].height <= GridSize && catalog[k].width <= GridSize
    ensures Fits(EmptyBoard(), catalog[k], 0, 0)
    ensures AnyMove(EmptyBoard(), catalog)
  {
    assert InBounds(0, 0) && Fits(EmptyBoard(), catalog[k], 0, 0);
  }
}
