/** The value types behind a block on the board: a cell coordinate, the
    rectangular footprint a block covers, a block of the current batch, and
    the row-major list of cells a block's bounding box covers. */
module Box {

  /** A cell of the board. As a datatype it is compared field by field. */
  datatype GridCoordinate = GridCoordinate(row: int, col: int)

  /** The footprint of a block: `height` rows by `width` columns, anchored at
      its top-left cell (the block's `gridHeight` and `gridWidth`). */
  datatype Shape = Shape(height: int, width: int) {

    /** Every block the game builds is at least one cell in each direction. */
    predicate WellFormed() {
      height >= 1 && width >= 1
    }

    /** Number of cells the footprint covers; the score a placement earns. */
    function Area(): int {
      height * width
    }

    /** True iff the footprint anchored at (anchorRow, anchorCol) covers (row, col). */
    predicate Covers(anchorRow: int, anchorCol: int, row: int, col: int) {
      anchorRow <= row < anchorRow + height && anchorCol <= col < anchorCol + width
    }
  }

  /** The footprint of a block that does not override `gridHeight`/`gridWidth`. */
  const DefaultShape: Shape := Shape(1, 1)

  /** A block of the current batch: its identity and its footprint. */
  datatype Block = Block(id: nat, shape: Shape)

  /** Equality of coordinates is equality of both fields. */
  lemma CoordinateEquality(a: GridCoordinate, b: GridCoordinate)
    ensures a == b <==> a.row == b.row && a.col == b.col
  {
  }

  /** A block with the default dimensions covers exactly its anchor cell. */
  lemma DefaultFootprintIsAnchor(anchorRow: int, anchorCol: int, row: int, col: int)
    ensures DefaultShape.WellFormed() && DefaultShape.Area() == 1
    ensures DefaultShape.Covers(anchorRow, anchorCol, row, col) <==> row == anchorRow && col == anchorCol
  {
  }

  /** The `i`-th cell, in row-major order, of a rectangle `width` cells wide
      whose top-left cell is (topLeftRow, topLeftCol). */
  function RowMajorCell(topLeftRow: int, topLeftCol: int, width: int, i: int): GridCoordinate
    requires width > 0
  {
    GridCoordinate(topLeftRow + i / width, topLeftCol + i % width)
  }

  /** A non-zero multiple of a positive width is at least that width away
      from zero: the nonlinear step that pins down the quotient in `RowMajorIndex`. */
  lemma {:induction false} MultipleBounds(width: int, k: int)
    requires width > 0
    ensures k >= 1 ==> width * k >= width
    ensures k <= -1 ==> width * k <= -width
  {
    if k >= 1 {
      assert width * k == width * (k - 1) + width;
    } else if k <= -1 {
      assert width * k == width * (k + 1) - width;
    }
  }

  /** Index `row * width + col` splits back into `row` and `col`. */
  lemma {:induction false} RowMajorIndex(row: int, col: int, width: int)
    requires width > 0 && 0 <= col < width
    ensures (row * width + col) / width == row && (row * width + col) % width == col
  {
    var i := row * width + col;
    var q, r := i / width, i % width;
    assert i == width * q + r && 0 <= r < width;
    assert width * (q - row) == col - r;
    MultipleBounds(width, q - row);
  }

  /** The row-major cell number `i` of a `height` x `width` rectangle lies in it. */
  lemma {:induction false} RowMajorCellInRectangle(topLeftRow: int, topLeftCol: int, height: nat, width: nat, i: int)
    requires 0 <= i < height * width
    ensures width > 0
    ensures var p := RowMajorCell(topLeftRow, topLeftCol, width, i);
            topLeftRow <= p.row < topLeftRow + height && topLeftCol <= p.col < topLeftCol + width
  {
    var q := i / width;
    assert i == width * q + i % width;
  }

  /** Distinct row-major indices name distinct cells: the enumeration has no duplicates. */
  lemma {:induction false} RowMajorCellInjective(topLeftRow: int, topLeftCol: int, width: int, i: int, j: int)
    requires width > 0 && i != j
    ensures RowMajorCell(topLeftRow, topLeftCol, width, i) != RowMajorCell(topLeftRow, topLeftCol, width, j)
  {
    assert i == width * (i / width) + i % width;
    assert j == width * (j / width) + j % width;
  }

  /** Every cell of the rectangle appears in the enumeration, at index
      `(row - topLeftRow) * width + (col - topLeftCol)`. */
  lemma {:induction false} RowMajorCellCovers(topLeftRow: int, topLeftCol: int, height: nat, width: nat, row: int, col: int)
    requires topLeftRow <= row < topLeftRow + height && topLeftCol <= col < topLeftCol + width
    ensures width > 0
    ensures var i := (row - topLeftRow) * width + (col - topLeftCol);
            0 <= i < height * width && RowMajorCell(topLeftRow, topLeftCol, width, i) == GridCoordinate(row, col)
  {
    var r, c := row - topLeftRow, col - topLeftCol;
    RowMajorIndex(r, c, width);
    assert r * width <= (height - 1) * width;
  }

  /** `occupiedCells`: the cells of a `heightInCells` x `widthInCells` box
      whose top-left cell is (topLeftRow, topLeftCol), listed row by row.
      A negative count would trap when Swift builds the range `0..<n`, whose
      upper bound may not be below its lower bound, so the counts are
      natural numbers. */
  method OccupiedCells(topLeftRow: int, topLeftCol: int, heightInCells: nat, widthInCells: nat)
    returns (occupied: seq<GridCoordinate>)
    ensures |occupied| == heightInCells * widthInCells
    ensures widthInCells > 0 ==>
              forall i :: 0 <= i < |occupied| ==> occupied[i] == RowMajorCell(topLeftRow, topLeftCol, widthInCells, i)
  {
    occupied := [];
    for row := 0 to heightInCells
      invariant |occupied| == row * widthInCells
      invariant widthInCells > 0 ==>
                  forall i :: 0 <= i < |occupied| ==> occupied[i] == RowMajorCell(topLeftRow, topLeftCol, widthInCells, i)
    {
      for col := 0 to widthInCells
        invariant |occupied| == row * widthInCells + col
        invariant widthInCells > 0 ==>
                    forall i :: 0 <= i < |occupied| ==> occupied[i] == RowMajorCell(topLeftRow, topLeftCol, widthInCells, i)
      {
        RowMajorIndex(row, col, widthInCells);
        occupied := occupied + [GridCoordinate(topLeftRow + row, topLeftCol + col)];
      }
    }
  }
}
