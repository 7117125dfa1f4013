/** The game scene: the grid it owns, the score, the batch of blocks on
    offer and the game-over flag, and the operations of a turn: test a
    placement, commit it, clear completed lines, search for a move, spawn a
    batch, end and restart the game. */
module Scene {
  import opened Box
  import opened Grid

  /** Blocks spawned per batch (`generateRandomShapes(count: 3)`). */
  const BatchSize: int := 3

  /** Position of the first occurrence of `b` (`firstIndex(of:)`). */
  function FirstIndex(blocks: seq<Block>, b: Block): (i: nat)
    requires b in blocks
    ensures i < |blocks| && blocks[i] == b && b !in blocks[..i]
  {
    if blocks[0] == b then 0
    else
      var j := FirstIndex(blocks[1..], b);
      assert blocks[..j + 1] == [blocks[0]] + blocks[1..][..j];
      j + 1
  }

  /** The batch once a placed block is taken out of it: its first occurrence
      is removed and the others keep their order; a block not in the batch
      leaves it as it is. */
  function RemoveFirst(blocks: seq<Block>, b: Block): (rest: seq<Block>)
    ensures b !in blocks ==> rest == blocks
    ensures b in blocks ==> |rest| == |blocks| - 1 && multiset(rest) == multiset(blocks) - multiset{b}
    ensures b in blocks ==>
              exists i :: 0 <= i < |blocks| && blocks[i] == b && b !in blocks[..i] &&
                          rest == blocks[..i] + blocks[i + 1..]
  {
    if b in blocks then
      var i := FirstIndex(blocks, b);
      assert blocks == blocks[..i] + [b] + blocks[i + 1..];
      blocks[..i] + blocks[i + 1..]
    else
      blocks
  }

  class GameScene {
    /** The block types a batch is drawn from (`availableBlockTypes`). */
    const catalog: seq<Shape>
    var grid: Board
    var score: int
    /** The blocks of the current batch not yet placed. */
    var boxNodes: seq<Block>
    var isGameOver: bool

    /** The grid is GridSize x GridSize, the score is never negative, and the
        catalog holds well-formed shapes, among them the one-cell block. */
    ghost predicate Valid()
      reads this
    {
      IsBoard(grid) && score >= 0 && CatalogWellFormed(catalog) && DefaultShape in catalog
    }

    /** A batch as the random generator draws it: BatchSize distinct new
        blocks whose types come from the catalog. */
    predicate BatchFromCatalog(batch: seq<Block>) {
      && |batch| == BatchSize
      && (forall i :: 0 <= i < |batch| ==> batch[i].shape in catalog)
      && (forall i, j :: 0 <= i < j < |batch| ==> batch[i].id != batch[j].id)
    }

    /** A scene with an empty grid, no score and no batch yet. */
    constructor (catalog: seq<Shape>)
      requires CatalogWellFormed(catalog) && DefaultShape in catalog
      ensures Valid() && this.catalog == catalog
      ensures grid == EmptyBoard() && score == 0 && boxNodes == [] && !isGameOver
    {
      this.catalog := catalog;
      grid := EmptyBoard();
      score := 0;
      boxNodes := [];
      isGameOver := false;
    }

    /** `setCellOccupied`: puts `tile` in an on-board cell; a cell off the
        board is ignored. No other cell changes. */
    method SetCellOccupied(row: int, col: int, tile: Tile)
      requires Valid()
      modifies this`grid
      ensures Valid()
      ensures !InBounds(row, col) ==> grid == old(grid)
      ensures forall r, c :: InBounds(r, c) ==>
                grid[r][c] == if r == row && c == col then Filled(tile) else old(grid)[r][c]
    {
      if !(0 <= row < GridSize && 0 <= col < GridSize) {
        return;
      }
      grid := grid[row := grid[row][col := Filled(tile)]];
    }

    /** `isPlacementValid`: scans the footprint row by row and stops at the
        first cell that is off the board or occupied. */
    method IsPlacementValid(shape: Shape, row: int, col: int) returns (valid: bool)
      requires Valid() && shape.height >= 0 && shape.width >= 0
      ensures valid == Fits(grid, shape, row, col)
    {
      for r := 0 to shape.height
        invariant forall i, j :: shape.Covers(row, col, i, j) && i < row + r ==>
                    InBounds(i, j) && grid[i][j] == Empty
      {
        for c := 0 to shape.width
          invariant forall i, j :: shape.Covers(row, col, i, j) && (i < row + r || (i == row + r && j < col + c)) ==>
                      InBounds(i, j) && grid[i][j] == Empty
        {
          var gridRow, gridCol := row + r, col + c;
          if gridRow < 0 || gridRow >= GridSize || gridCol < 0 || gridCol >= GridSize {
            assert shape.Covers(row, col, gridRow, gridCol);
            return false;
          }
          if grid[gridRow][gridCol].Filled? {
            assert shape.Covers(row, col, gridRow, gridCol);
            return false;
          }
        }
      }
      return true;
    }

    /** `checkForPossibleMoves`: tries every catalog shape at every cell, in
        row-major order, and stops at the first that fits. */
    method CheckForPossibleMoves() returns (possible: bool)
      requires Valid()
      ensures possible == AnyMove(grid, catalog)
    {
      for row := 0 to GridSize
        invariant forall i, j, k :: 0 <= i < row && 0 <= j < GridSize && 0 <= k < |catalog| ==>
                    !Fits(grid, catalog[k], i, j)
      {
        for col := 0 to GridSize
          invariant forall i, j, k :: (0 <= i < row || (i == row && j < col)) && 0 <= j < GridSize && 0 <= k < |catalog| ==>
                      !Fits(grid, catalog[k], i, j)
        {
          for k := 0 to |catalog|
            invariant forall i, j, k' :: (0 <= i < row || (i == row && j < col) || (i == row && j == col && k' < k)) &&
                                         0 <= j < GridSize && 0 <= k' < |catalog| ==>
                        !Fits(grid, catalog[k'], i, j)
          {
            var valid := IsPlacementValid(catalog[k], row, col);
            if valid {
              assert InBounds(row, col);
              return true;
            }
          }
        }
      }
      return false;
    }

    /** `canSpawnBlocks`: the same search, except that occupied cells are
        skipped before any shape is tried there. It always agrees with
        `checkForPossibleMoves`. */
    method CanSpawnBlocks() returns (canSpawn: bool)
      requires Valid()
      ensures canSpawn == SpawnableMove(grid, catalog)
      ensures canSpawn == AnyMove(grid, catalog)
    {
      SpawnableIffAnyMove(grid, catalog);
      for row := 0 to GridSize
        invariant forall i, j, k :: 0 <= i < row && 0 <= j < GridSize && 0 <= k < |catalog| ==>
                    Occupied(grid, i, j) || !Fits(grid, catalog[k], i, j)
      {
        for col := 0 to GridSize
          invariant forall i, j, k :: (0 <= i < row || (i == row && j < col)) && 0 <= j < GridSize && 0 <= k < |catalog| ==>
                      Occupied(grid, i, j) || !Fits(grid, catalog[k], i, j)
        {
          if !Occupied(grid, row, col) {
            for k := 0 to |catalog|
              invariant forall i, j, k' :: (0 <= i < row || (i == row && j < col) || (i == row && j == col && k' < k)) &&
                                           0 <= j < GridSize && 0 <= k' < |catalog| ==>
                          Occupied(grid, i, j) || !Fits(grid, catalog[k'], i, j)
            {
              var valid := IsPlacementValid(catalog[k], row, col);
              if valid {
                assert InBounds(row, col);
                return true;
              }
            }
          }
        }
      }
      return false;
    }

    /** `clearRow`: empties every cell of the row and earns a point for each
        cell that was occupied. */
    method ClearRow(row: int)
      requires Valid() && 0 <= row < GridSize
      modifies this`grid, this`score
      ensures Valid()
      ensures forall c :: 0 <= c < GridSize ==> grid[row][c] == Empty
      ensures forall r, c :: InBounds(r, c) && r != row ==> grid[r][c] == old(grid)[r][c]
      ensures score == old(score) + FilledCount(old(grid)[row])
    {
      for col := 0 to GridSize
        invariant Valid()
        invariant forall c :: 0 <= c < col ==> grid[row][c] == Empty
        invariant forall c :: col <= c < GridSize ==> grid[row][c] == old(grid)[row][c]
        invariant forall r, c :: InBounds(r, c) && r != row ==> grid[r][c] == old(grid)[r][c]
        invariant score == old(score) + FilledCount(old(grid)[row][..col])
      {
        assert old(grid)[row][..col + 1][..col] == old(grid)[row][..col];
        if grid[row][col].Filled? {
          grid := grid[row := grid[row][col := Empty]];
          score := score + 1;
        }
      }
      assert old(grid)[row][..GridSize] == old(grid)[row];
    }

    /** `clearColumn`: empties every cell of the column and earns a point for
        each cell that was occupied. */
    method ClearColumn(col: int)
      requires Valid() && 0 <= col < GridSize
      modifies this`grid, this`score
      ensures Valid()
      ensures forall r :: 0 <= r < GridSize ==> grid[r][col] == Empty
      ensures forall r, c :: InBounds(r, c) && c != col ==> grid[r][c] == old(grid)[r][c]
      ensures score == old(score) + FilledCount(ColumnCells(old(grid), col))
    {
      ghost var column := ColumnCells(grid, col);
      for row := 0 to GridSize
        invariant Valid()
        invariant forall r :: 0 <= r < row ==> grid[r][col] == Empty
        invariant forall r :: row <= r < GridSize ==> grid[r][col] == old(grid)[r][col]
        invariant forall r, c :: InBounds(r, c) && c != col ==> grid[r][c] == old(grid)[r][c]
        invariant score == old(score) + FilledCount(column[..row])
      {
        assert column[..row + 1][..row] == column[..row];
        if grid[row][col].Filled? {
          grid := grid[row := grid[row][col := Empty]];
          score := score + 1;
        }
      }
      assert column[..GridSize] == column;
    }

    /** The row pass of `checkForCompletedLines`: every full row is cleared. */
    method ClearFullRows()
      requires Valid()
      modifies this`grid, this`score
      ensures Valid()
      ensures RowPassOf(old(grid), grid)
      ensures score == old(score) + GridSize * FullRows(old(grid), GridSize)
    {
      ghost var g0 := grid;
      for row := 0 to GridSize
        invariant Valid()
        invariant forall r, c :: InBounds(r, c) ==>
                    grid[r][c] == if r < row && RowFull(g0, r) then Empty else g0[r][c]
        invariant score == old(score) + GridSize * FullRows(g0, row)
      {
        assert forall c :: 0 <= c < GridSize ==> grid[row][c] == g0[row][c];
        assert grid[row] == g0[row];
        if RowFull(grid, row) {
          FilledCountAllFilled(grid[row]);
          ClearRow(row);
        }
      }
    }

    /** The column pass of `checkForCompletedLines`: every column found full,
        scanning top to bottom and stopping at the first empty cell, is cleared. */
    method ClearFullColumns()
      requires Valid()
      modifies this`grid, this`score
      ensures Valid()
      ensures ColumnPassOf(old(grid), grid)
      ensures score == old(score) + GridSize * FullColumns(old(grid), GridSize)
    {
      ghost var g1 := grid;
      for col := 0 to GridSize
        invariant Valid()
        invariant forall r, c :: InBounds(r, c) ==>
                    grid[r][c] == if c < col && ColumnFull(g1, c) then Empty else g1[r][c]
        invariant score == old(score) + GridSize * FullColumns(g1, col)
      {
        forall r | 0 <= r < GridSize
          ensures grid[r][col] == g1[r][col]
        {
          assert InBounds(r, col);
        }
        assert ColumnCells(grid, col) == ColumnCells(g1, col);
        var isCompleted := true;
        for row := 0 to GridSize
          invariant isCompleted
          invariant forall r :: 0 <= r < row ==> grid[r][col].Filled?
        {
          if grid[row][col] == Empty {
            isCompleted := false;
            break;
          }
        }
        if isCompleted {
          FilledCountAllFilled(ColumnCells(grid, col));
          ClearColumn(col);
        }
      }
    }

    /** `checkForCompletedLines`: clears every full row, then clears every
        column that is full in the grid the row pass left behind. */
    method CheckForCompletedLines()
      requires Valid()
      modifies this`grid, this`score
      ensures Valid()
      ensures grid == LinesCleared(old(grid))
      ensures score == old(score) + LineClearAward(old(grid))
    {
      ghost var g0 := grid;
      ClearFullRows();
      ghost var g1 := grid;
      ClearFullColumns();
      SequentialPassesClearLines(g0, g1, grid);
    }

    /** `showGameOverScreen`, without the labels it draws. */
    method ShowGameOverScreen()
      modifies this`isGameOver
      ensures isGameOver
    {
      isGameOver := true;
    }

    /** `spawnNewBlocks`: unless the game is over or no move is left, the
        batch is replaced by `batch`, the blocks the random generator drew;
        the game then ends if no move is possible. */
    method SpawnNewBlocks(batch: seq<Block>)
      requires Valid() && BatchFromCatalog(batch)
      modifies this`boxNodes, this`isGameOver
      ensures Valid()
      ensures isGameOver == (old(isGameOver) || !AnyMove(grid, catalog))
      ensures boxNodes == if old(isGameOver) || !AnyMove(grid, catalog) then old(boxNodes) else batch
    {
      if isGameOver {
        ShowGameOverScreen();
        return;
      }
      var canSpawn := CanSpawnBlocks();
      if !canSpawn {
        ShowGameOverScreen();
        return;
      }
      boxNodes := [];
      for i := 0 to |batch|
        invariant boxNodes == batch[..i] && !isGameOver
      {
        boxNodes := boxNodes + [batch[i]];
      }
      assert batch[..|batch|] == batch;
      // The source shows the game-over screen when this search fails; it
      // cannot fail here, since canSpawnBlocks has just found a move.
      var possible := CheckForPossibleMoves();
      isGameOver := isGameOver || !possible;
    }

    /** The filling loop of `placeBlock`: every footprint cell of a legal
        placement receives a node, row by row, and nothing else changes. */
    method FillFootprint(shape: Shape, row: int, col: int, tile: Tile)
      requires Valid() && shape.height >= 0 && shape.width >= 0 && Fits(grid, shape, row, col)
      modifies this`grid
      ensures Valid()
      ensures grid == Placed(old(grid), shape, row, col, tile)
    {
      ghost var g0 := grid;
      for r := 0 to shape.height
        invariant Valid()
        invariant forall i, j :: InBounds(i, j) ==>
                    grid[i][j] == if shape.Covers(row, col, i, j) && i < row + r then Filled(tile) else g0[i][j]
      {
        for c := 0 to shape.width
          invariant Valid()
          invariant forall i, j :: InBounds(i, j) ==>
                      grid[i][j] == if shape.Covers(row, col, i, j) && (i < row + r || (i == row + r && j < col + c))
                                    then Filled(tile) else g0[i][j]
        {
          assert shape.Covers(row, col, row + r, col + c);
          SetCellOccupied(row + r, col + c, tile);
        }
      }
      BoardExtensionality(grid, Placed(g0, shape, row, col, tile));
    }

    /** The last step of `placeBlock`: the game ends if no move is left;
        otherwise a used-up batch is replaced by `batch`. */
    method ContinueOrEndGame(batch: seq<Block>)
      requires Valid() && BatchFromCatalog(batch)
      modifies this`boxNodes, this`isGameOver
      ensures Valid()
      ensures isGameOver == (old(isGameOver) || !AnyMove(grid, catalog))
      ensures boxNodes == if !old(isGameOver) && AnyMove(grid, catalog) && old(boxNodes) == [] then batch else old(boxNodes)
    {
      var canSpawn := CanSpawnBlocks();
      if !canSpawn {
        ShowGameOverScreen();
      } else if |boxNodes| == 0 {
        SpawnNewBlocks(batch);
      }
    }

    /** `placeBlock`: if the block's footprint fits at (row, col), fill it,
        score its area, take the block out of the batch, clear completed
        lines, then end the game if no move is left or spawn a new batch if
        the old one is used up. Otherwise nothing of the game state changes
        (the block only snaps back on screen). */
    method PlaceBlock(block: Block, row: int, col: int, tile: Tile, batch: seq<Block>)
      requires Valid() && block.shape.height >= 0 && block.shape.width >= 0
      requires BatchFromCatalog(batch)
      modifies this
      ensures Valid()
      ensures score >= old(score)
      ensures !Fits(old(grid), block.shape, row, col) ==>
                grid == old(grid) && score == old(score) && boxNodes == old(boxNodes) && isGameOver == old(isGameOver)
      ensures Fits(old(grid), block.shape, row, col) ==>
                var placed := Placed(old(grid), block.shape, row, col, tile);
                var rest := RemoveFirst(old(boxNodes), block);
                && grid == LinesCleared(placed)
                && score == old(score) + block.shape.Area() + LineClearAward(placed)
                && isGameOver == (old(isGameOver) || !AnyMove(grid, catalog))
                && isGameOver == old(isGameOver)
                && boxNodes == if !old(isGameOver) && rest == [] then batch else rest
    {
      var valid := IsPlacementValid(block.shape, row, col);
      if !valid {
        return;
      }
      ghost var placed := Placed(grid, block.shape, row, col, tile);
      ghost var area := block.shape.Area();
      assert area >= 0;
      ghost var awarded := score + area + LineClearAward(placed);
      ghost var rest := RemoveFirst(boxNodes, block);
      ghost var over := isGameOver;
      FillFootprint(block.shape, row, col, tile);
      score := score + block.shape.height * block.shape.width;
      boxNodes := RemoveFirst(boxNodes, block);
      CheckForCompletedLines();
      assert grid == LinesCleared(placed) && score == awarded && boxNodes == rest && isGameOver == over;
      ClearedBoardKeepsMove(placed, catalog);
      ContinueOrEndGame(batch);
    }

    /** `restartGame`: score 0, an empty grid, the game on again, and a new batch. */
    method RestartGame(batch: seq<Block>)
      requires Valid() && BatchFromCatalog(batch)
      modifies this
      ensures Valid()
      ensures score == 0 && grid == EmptyBoard() && !isGameOver && boxNodes == batch
    {
      score := 0;
      grid := EmptyBoard();
      isGameOver := false;
      SpawnNewBlocks(batch);
      var k :| 0 <= k < |catalog| && catalog[k] == DefaultShape;
      EmptyBoardHasMove(catalog, k);
    }

    /** The game-over branch of `touchesBegan`: a touch on a finished game
        restarts it and does nothing else; picking a block to drag is not
        part of the engine. */
    method TouchesBegan(batch: seq<Block>)
      requires Valid() && BatchFromCatalog(batch)
      modifies this
      ensures Valid()
      ensures old(isGameOver) ==> score == 0 && grid == EmptyBoard() && !isGameOver && boxNodes == batch
      ensures !old(isGameOver) ==>
                grid == old(grid) && score == old(score) && boxNodes == old(boxNodes) && !isGameOver
    {
      if isGameOver {
        RestartGame(batch);
        return;
      }
    }
  }
}
