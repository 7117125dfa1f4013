# Blocks: the grid placement and clearing engine, in Dafny

This project models the engine of the Blocks puzzle game: a 10 x 10 grid
on which the player drops blocks from a batch of three. A block covers a
`gridHeight` x `gridWidth` rectangle anchored at its top-left cell. A
placement is legal when every covered cell is on the grid and empty. A
legal placement fills those cells and scores one point per cell. Full rows,
then full columns, are emptied for one point per cleared cell. The game
ends when the exhaustive move search finds no catalog shape that fits
anywhere. A touch on a finished game restarts it.

Three modules follow the source's structure:

- `Box` (`box.dfy`, from `Code/Nodes/BBoxNode.swift`): `GridCoordinate`,
  the footprint `Shape(height, width)` with its 1 x 1 default, a batch
  `Block`, and `OccupiedCells`, the row-major enumeration of a box's cells,
  written as the source's nested loops.
- `Grid` (`grid.dfy`): the grid as a value (`seq<seq<Cell>>`, a cell being
  `Empty` or `Filled(tile)`). It holds the specification functions the
  scene is proved against: `Occupied`, `Fits`, `Placed`, `LinesCleared`,
  `LineClearAward` and `AnyMove`. It also holds the lemmas about them.
- `Scene` (`scene.dfy`, from `Code/Core/BGameScene.swift`): the class
  `GameScene`, with fields `grid`, `score`, `boxNodes` and `isGameOver`. Its
  methods are imperative, as in the source: nested loops with early
  returns, cell-by-cell updates and in-loop score increments. Each method is
  proved against the `Grid` functions.

Randomness is a parameter. The three blocks `generateRandomShapes` would
draw are passed in as `batch` to the operations that may spawn a batch.
They must come from the catalog, there must be `BatchSize` = 3 of them,
and they are distinct blocks, as the three new objects the source creates are.
The catalog (`availableBlockTypes`) is a constructor parameter, because the
dimensions of `BSquareBlock2x2` and `BThreeByThreeBlockNode` are not part
of this model. The scene's invariant requires every catalog shape to be at
least 1 x 1 and the 1 x 1 `BSingleBlock` to be in the catalog, as it is in
the source.

Four behaviours of the code shape the model:

- Footprints are rectangles. A block covers its whole `gridHeight` x
  `gridWidth` box.
- Rows are cleared before columns are tested. A column completed in the
  same move as a row therefore keeps the hole the row clear left and is
  not cleared (`Grid.ClearedCell`). One consequence: the clear score never
  counts a cell twice. `Grid.ClearingAwardsRemovedCells` proves that it
  equals the number of cells emptied.
- After a placement, the move search runs over the whole catalog, not
  over the blocks left in the batch. The catalog contains the 1 x 1 block,
  and a cleared grid always has an empty cell. So a legal placement never
  ends the game (`Grid.ClearedBoardKeepsMove`, and the `isGameOver ==
  old(isGameOver)` clause of `Scene.GameScene.PlaceBlock`). Nor can
  `spawnNewBlocks` end it after `restartGame`, on an empty grid. The
  game-over branches are modelled as written, but no reachable state takes
  them.
- `placeBlock` does not check `isGameOver`. A touch while the game is
  over restarts it (`touchesBegan`).

## Model

| member | source | states |
|---|---|---|
| `Box.CoordinateEquality` | Code/Nodes/BBoxNode.swift:10-13 | two coordinates are equal iff their rows and their columns are equal |
| `Box.DefaultFootprintIsAnchor` | Code/Nodes/BBoxNode.swift:20-21 | the default 1 x 1 footprint is well formed, has area 1 and covers exactly its anchor cell |
| `Box.OccupiedCells` | Code/Nodes/BBoxNode.swift:84-93 | the result has exactly height * width coordinates, and element i is (topLeftRow + i / width, topLeftCol + i % width), so zero rows or columns give an empty list |
| `Box.RowMajorCellInRectangle` | Code/Nodes/BBoxNode.swift:88-91 | every enumerated coordinate lies in [topLeftRow, topLeftRow + h) x [topLeftCol, topLeftCol + w) |
| `Box.RowMajorCellInjective` | Code/Nodes/BBoxNode.swift:88-92 | distinct indices give distinct coordinates, so the list has no duplicates |
| `Box.RowMajorCellCovers` | Code/Nodes/BBoxNode.swift:88-92 | every cell of the rectangle is enumerated, at index (row - top) * w + (col - left) |
| `Box.RowMajorIndex` | Code/Nodes/BBoxNode.swift:88-90 | index row * width + col divides back into row and col |
| `Grid.EmptyBoard` | Code/Core/BGameScene.swift:373 | the reset grid is 10 x 10 with every cell empty |
| `Grid.Occupied` | Code/Core/BGameScene.swift:67-72 | an off-grid cell reads as occupied; an on-grid cell is occupied iff it holds a node |
| `Grid.FitsIffFootprintUnoccupied` | Code/Core/BGameScene.swift:203-221 | the bounds-then-emptiness tests of isPlacementValid agree with asking isCellOccupied of every footprint cell |
| `Grid.FitsAnchorFree` | Code/Core/BGameScene.swift:417-431 | the anchor of a legal placement of a block at least 1 x 1 is an empty on-grid cell |
| `Grid.FitsWithinBoard` | Code/Core/BGameScene.swift:203-212 | a legal footprint lies wholly inside rows and columns 0 .. gridSize - 1 |
| `Grid.PlacedChangesExactlyFootprint` | Code/Core/BGameScene.swift:228-258 | a legal placement changes exactly the footprint cells, each from empty to filled, and leaves every other cell as it was |
| `Grid.PlacementFillsArea` | Code/Core/BGameScene.swift:260-262 | the gridHeight * gridWidth points a placement earns equal the number of cells that became occupied |
| `Grid.FilledCountAllFilled` | Code/Core/BGameScene.swift:292 | a fully occupied line counts all its cells |
| `Grid.FilledCountAllEmpty` | Code/Core/BGameScene.swift:317 | a cleared line counts no occupied cell |
| `Grid.FilledCountAfterFill` | Code/Core/BGameScene.swift:230-258 | filling the empty cells lo .. hi-1 of a line adds one occupied cell per filled position |
| `Grid.BoardFilledCountAfterFill` | Code/Core/BGameScene.swift:230-258 | if the footprint rows each gain width occupied cells and other rows none, the first n rows gain width per footprint row among them |
| `Grid.PlacedRowCount` | Code/Core/BGameScene.swift:230-258 | a footprint row gains gridWidth occupied cells and every other row keeps its count |
| `Grid.SequentialPassesClearLines` | Code/Core/BGameScene.swift:289-310 | clearing full rows, then full columns of the updated grid, yields LinesCleared, and the two passes award LineClearAward: after a row clear no column is full |
| `Grid.NoFullRowsCountsZero` | Code/Core/BGameScene.swift:291-295 | with no full row the row pass clears nothing |
| `Grid.NoFullColumnsCountsZero` | Code/Core/BGameScene.swift:298-309 | with no full column the column pass clears nothing |
| `Grid.FullColumnsAgree` | Code/Core/BGameScene.swift:298-309 | grids with the same full columns clear the same number of columns |
| `Grid.FullRowsSingle` | Code/Core/BGameScene.swift:291-295 | when one row is full, the row pass clears exactly that one |
| `Grid.CompletingOneRow` | Code/Core/BGameScene.swift:289-322 | filling the last empty cell of a row, with no row full before, clears exactly that row for 10 points and leaves every other cell as it was |
| `Grid.NoFullLineAfterClearing` | Code/Core/BGameScene.swift:289-310 | after checkForCompletedLines no row and no column is fully occupied |
| `Grid.LinesClearedIdempotent` | Code/Core/BGameScene.swift:289-310 | a second line check on the result clears nothing and awards nothing |
| `Grid.RowClearCounts` | Code/Core/BGameScene.swift:312-322 | when rows are cleared, each full row loses all gridSize cells and every other row keeps its count |
| `Grid.ColumnClearRowCount` | Code/Core/BGameScene.swift:324-334 | when only columns are cleared, each row loses exactly one occupied cell per full column |
| `Grid.ColumnClearCounts` | Code/Core/BGameScene.swift:324-334 | when only columns are cleared, the grid loses gridSize cells per full column |
| `Grid.ClearingAwardsRemovedCells` | Code/Core/BGameScene.swift:312-334 | the clear score equals the number of cells emptied; no cell is counted twice |
| `Grid.SpawnableIffAnyMove` | Code/Core/BGameScene.swift:417-435 | skipping occupied anchors loses no move: canSpawnBlocks and checkForPossibleMoves decide the same question |
| `Grid.AnyMoveIffEmptyCell` | Code/Core/BGameScene.swift:81-85 | with the 1 x 1 block in the catalog, a move exists iff some cell is empty |
| `Grid.FullBoardHasNoMove` | Code/Core/BGameScene.swift:123-139 | on a fully occupied grid no catalog shape fits anywhere |
| `Grid.EmptyBoardHasMove` | Code/Core/BGameScene.swift:367-383 | on the empty grid a catalog shape no larger than the grid fits at the top-left corner, so a move exists |
| `Grid.ClearedBoardKeepsMove` | Code/Core/BGameScene.swift:274-281 | after line clearing a move always remains when the 1 x 1 block is in the catalog |
| `Scene.FirstIndex` | Code/Core/BGameScene.swift:266 | the returned index holds the block, and no earlier index does |
| `Scene.RemoveFirst` | Code/Core/BGameScene.swift:265-268 | a block in the batch has its first occurrence removed and the others keep their order; multiset and length shrink by exactly that block; a block not in the batch leaves it unchanged |
| `Scene.GameScene.constructor` | Code/Core/BGameScene.swift:24-30 | a new scene has an all-empty 10 x 10 grid, score 0, no batch and is not over |
| `Scene.GameScene.SetCellOccupied` | Code/Core/BGameScene.swift:74-79 | an off-grid write is a no-op; otherwise only the addressed cell changes, to the given node |
| `Scene.GameScene.IsPlacementValid` | Code/Core/BGameScene.swift:203-221 | returns true iff every footprint cell is on the grid and empty; reads and never writes |
| `Scene.GameScene.CheckForPossibleMoves` | Code/Core/BGameScene.swift:123-139 | returns true iff some in-range anchor and some catalog shape pass isPlacementValid |
| `Scene.GameScene.CanSpawnBlocks` | Code/Core/BGameScene.swift:417-435 | returns true iff some empty anchor admits some catalog shape, which is the same answer as checkForPossibleMoves |
| `Scene.GameScene.ClearRow` | Code/Core/BGameScene.swift:312-322 | empties every cell of the row, changes no other cell, and raises the score by the number of cells in it that were occupied |
| `Scene.GameScene.ClearColumn` | Code/Core/BGameScene.swift:324-334 | empties every cell of the column, changes no other cell, and raises the score by the number of cells in it that were occupied |
| `Scene.GameScene.ClearFullRows` | Code/Core/BGameScene.swift:290-295 | every row full in the old grid is emptied, no other cell changes, and the score grows by 10 per full row |
| `Scene.GameScene.ClearFullColumns` | Code/Core/BGameScene.swift:297-309 | the top-to-bottom scan with early exit finds exactly the full columns; each is emptied, no other cell changes, and the score grows by 10 per full column |
| `Scene.GameScene.CheckForCompletedLines` | Code/Core/BGameScene.swift:289-310 | the grid becomes LinesCleared of the old grid and the score grows by LineClearAward: rows first, and columns only when no row was full |
| `Scene.GameScene.ShowGameOverScreen` | Code/Core/BGameScene.swift:342-343 | sets isGameOver |
| `Scene.GameScene.SpawnNewBlocks` | Code/Core/BGameScene.swift:142-188 | if the game is over or no move exists, sets isGameOver and keeps the batch; otherwise the batch becomes the 3 drawn blocks and the game stays on; grid and score never change |
| `Scene.GameScene.FillFootprint` | Code/Core/BGameScene.swift:230-258 | filling a legal footprint cell by cell yields exactly Placed: those cells hold the block's node and no other cell changes |
| `Scene.GameScene.ContinueOrEndGame` | Code/Core/BGameScene.swift:276-281 | the game ends iff no move is left (or it already had); otherwise an empty batch is replaced by the drawn blocks and a non-empty one kept |
| `Scene.GameScene.PlaceBlock` | Code/Core/BGameScene.swift:223-286 | an illegal placement changes nothing; a legal one leaves the grid LinesCleared of the filled footprint, adds the area and then the clear award to the score, removes the block from the batch, respawns iff the batch is used up and the game is on, and sets isGameOver iff no move is left, which never happens |
| `Scene.GameScene.RestartGame` | Code/Core/BGameScene.swift:367-383 | score 0, an all-empty grid, isGameOver false and a fresh batch of 3 |
| `Scene.GameScene.TouchesBegan` | Code/Core/BGameScene.swift:390-396 | a touch on a finished game restarts it and nothing else; otherwise the game state is unchanged |

## Left out

- Rendering and labels are not modelled. This covers `createGrid`'s
  background tiles, `addScoreLabel`, `updateScoreLabel`, the labels of
  `showGameOverScreen`, and the building, colouring and pixel positioning
  of cell nodes in `placeBlock`. They are presentation with `CGFloat`
  arithmetic.
- Scene-graph bookkeeping is not modelled: `addBlockNode`, `safeAddBlock`,
  `removeFromParent` and `removeAllChildren`. It has no effect on grid,
  score, batch or game-over state.
- Each cell the source fills gets its own new `SKShapeNode`. The model puts
  one caller-supplied `tile` in every cell of a placement. The engine never
  looks at a node beyond testing it against `nil`.
- The batch layout arithmetic in `spawnNewBlocks` is not modelled. It is
  floating-point positioning. Only its appending of the drawn blocks to
  `boxNodes` is kept.
- `generateRandomShapes` and `randomColor` are random. The drawn blocks are
  the `batch` parameter.
- When a placement is illegal, the block snaps back to its start position.
  Block positions are not modelled, so that placement changes nothing in
  the model.
- Touch and drag handling is not modelled. This covers `touchesMoved`,
  `touchesEnded`, `updatePosition`, the choice of the dragged block in
  `touchesBegan`, and the empty-touch-set guard. Only the branch that
  restarts a finished game is kept.
- The float-to-cell conversion at the start of `occupiedCells` is not
  modelled. `OccupiedCells` takes the top-left cell and the cell counts as
  integers instead.
- `didMove(to:)`, `init(coder:)` and `BGameContext` are not modelled. They
  are scene setup and dependency wiring. `Dependencies`, `BLayoutInfo` and
  `setupShape` are not part of this model.
- The dimensions of `BSquareBlock2x2` and `BThreeByThreeBlockNode` are not
  part of this model. The catalog is a constructor parameter, constrained
  only to well-formed shapes that include the 1 x 1 block.
- The other block classes (`BVerticalBlock1x4Node`, `BVerticalBlockNode1x4`,
  `BVerticalBlockNode1x2`, `BRotatedLBlock2x2`, `BRotatedLShapeNode5Block`) are not in the catalog. They
  are not modelled beyond the `Shape` type, which holds any of their
  dimensions.
- Swift's `Int` traps on overflow. The model's score is an unbounded
  integer. A move adds at most 100 for the placement and 100 for the clear, far from 2^63.
- `Scene.GameScene.IsPlacementValid` and `Scene.GameScene.PlaceBlock`
  require non-negative block dimensions. In Swift a negative range bound
  traps, and every block type has dimensions of at least 1.
