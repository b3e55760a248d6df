/** The well grid component: a fixed rows x cols matrix of cells updated in
    place, the running block id counter, and the merge / line-clear /
    row-removal operations that change them. */
module Well {
  import opened Grid
  import opened Landing
  import BlockValue

  class WellGrid {
    const rows: nat
    const cols: nat
    var grid: array2<Cell>
    var gridBlockCount: nat
    /** The grid's contents as a matrix value, kept in step with `grid`. */
    ghost var cells: Matrix

    /** The matrix has the configured, non-zero dimensions and `cells` mirrors it. */
    ghost predicate Shaped()
      reads this, grid
    {
      && 1 <= rows && 1 <= cols && grid.Length0 == rows && grid.Length1 == cols
      && |cells| == rows
      && (forall r :: 0 <= r < rows ==> |cells[r]| == cols)
      && (forall r, c {:trigger grid[r, c]} :: 0 <= r < rows && 0 <= c < cols ==> cells[r][c] == grid[r, c])
    }

    /** What holds between landings: no complete line is left standing, and
        every block has its own id, none above the counter. */
    ghost predicate Valid()
      reads this, grid
    {
      Shaped() && NoFullRow(cells) && IdsDistinct(cells) && IdsAtMost(cells, gridBlockCount)
    }

    constructor (rows: nat, cols: nat)
      requires rows >= 1 && cols >= 1
      ensures Valid() && fresh(grid)
      ensures this.rows == rows && this.cols == cols
      ensures cells == EmptyRows(rows, cols) && gridBlockCount == 0
    {
      this.rows := rows;
      this.cols := cols;
      grid := new Cell[rows, cols]((r, c) => Empty);
      gridBlockCount := 0;
      cells := EmptyRows(rows, cols);
      new;
      EmptyGridValid();
    }

    /** Empties the grid and restarts the id counter; the dimensions stay. */
    method Reset()
      requires Valid()
      modifies this
      ensures Valid() && fresh(grid)
      ensures cells == EmptyRows(rows, cols) && gridBlockCount == 0
    {
      grid := new Cell[rows, cols]((r, c) => Empty);
      gridBlockCount := 0;
      cells := EmptyRows(rows, cols);
      EmptyGridValid();
    }

    /** The all-empty grid with the counter at zero is valid. */
    lemma EmptyGridValid()
      requires 1 <= rows && 1 <= cols && grid.Length0 == rows && grid.Length1 == cols
      requires forall r, c :: 0 <= r < rows && 0 <= c < cols ==> grid[r, c] == Empty
      requires cells == EmptyRows(rows, cols) && gridBlockCount == 0
      ensures Valid()
    {
      assert forall r :: 0 <= r < rows ==> cells[r][0] == Empty;
    }

    /** Deletes row `rowToRemove`: every row above it moves one place down and
        row 0 becomes empty. */
    method RemoveGridRow(rowToRemove: nat)
      requires Shaped() && rowToRemove < rows
      modifies this`cells, grid
      ensures Shaped()
      ensures cells == RemovedRow(old(cells), rowToRemove, cols)
      ensures cells[0] == EmptyRow(cols)
      ensures forall r :: 0 < r <= rowToRemove ==> cells[r] == old(cells)[r - 1]
      ensures forall r :: rowToRemove < r < rows ==> cells[r] == old(cells)[r]
    {
      var row: int := rowToRemove;
      while row >= 0
        invariant -1 <= row <= rowToRemove
        invariant cells == old(cells)
        invariant forall r, c :: 0 <= r < rows && 0 <= c < cols ==>
          grid[r, c] == if row < r <= rowToRemove then (if r == 0 then Empty else old(grid[r - 1, c]))
                        else old(grid[r, c])
      {
        var col: int := cols - 1;
        while col >= 0
          invariant -1 <= col < cols
          invariant cells == old(cells)
          invariant forall r, c :: 0 <= r < rows && 0 <= c < cols ==>
            grid[r, c] == if row < r <= rowToRemove || (r == row && col < c)
                          then (if r == 0 then Empty else old(grid[r - 1, c]))
                          else old(grid[r, c])
        {
          grid[row, col] := if row > 0 then grid[row - 1, col] else Empty;
          col := col - 1;
        }
        row := row - 1;
      }
      forall r | 0 <= r < rows {
        RemovedRowAt(cells, rowToRemove, cols, r);
      }
      cells := RemovedRow(cells, rowToRemove, cols);
    }

    /** Stores the landed piece's occupied cells into the grid, then clears
        the complete lines and moves the counter past the ids handed out.
        Returns the number of lines cleared. */
    method TransferTetriminoBlocksToGrid(tetrimino: Piece, position: Position) returns (lines: nat)
      requires Valid() && |tetrimino.shape| >= 1
      requires ColumnsFit(tetrimino, position, rows, cols)
      modifies this, grid
      ensures Valid() && grid == old(grid)
      ensures gridBlockCount == old(gridBlockCount) + Written(tetrimino, position, rows)
      ensures lines == CountFull(Placed(old(cells), tetrimino, position, old(gridBlockCount)))
      ensures cells == Cleared(Placed(old(cells), tetrimino, position, old(gridBlockCount)), cols)
    {
      LandingKeepsInvariant(cells, tetrimino, position, gridBlockCount, cols);
      var blockCount := StoreTetriminoBlocks(tetrimino, position);
      lines := ClearLinesFromGrid();
      gridBlockCount := blockCount;
    }

    /** The merge loops: every occupied piece cell whose row falls inside the
        well receives the next id after the counter, in row-major order; the
        counter itself is left alone. Returns the last id handed out. */
    method StoreTetriminoBlocks(tetrimino: Piece, position: Position) returns (blockCount: nat)
      requires Shaped() && |tetrimino.shape| >= 1
      requires ColumnsFit(tetrimino, position, rows, cols)
      modifies this`cells, grid
      ensures Shaped()
      ensures cells == Placed(old(cells), tetrimino, position, gridBlockCount)
      ensures blockCount == gridBlockCount + Written(tetrimino, position, rows)
    {
      ghost var g0 := cells;
      var base := gridBlockCount;
      var shapeRows := |tetrimino.shape|;
      var shapeCols := |tetrimino.shape[0]|;
      blockCount := gridBlockCount;
      var row := 0;
      while row < shapeRows
        invariant 0 <= row <= shapeRows
        invariant cells == g0
        invariant blockCount == base + CountBefore(tetrimino, position, rows, row)
        invariant forall r, c {:trigger grid[r, c]} :: 0 <= r < rows && 0 <= c < cols ==>
          grid[r, c] == if Targets(tetrimino, position, rows, r, c) && r - position.y < row
                        then PlacedCell(g0, tetrimino, position, base, r, c) else g0[r][c]
      {
        var col := 0;
        while col < shapeCols
          invariant 0 <= col <= shapeCols
          invariant cells == g0
          invariant blockCount == base + Rank(tetrimino, position, rows, row, col)
          invariant forall r, c {:trigger grid[r, c]} :: 0 <= r < rows && 0 <= c < cols ==>
            grid[r, c] == if Targets(tetrimino, position, rows, r, c) &&
                             Before(r - position.y, c - position.x, row, col)
                          then PlacedCell(g0, tetrimino, position, base, r, c) else g0[r][c]
        {
          // Blank squares of the piece, and squares past a short row's end, are skipped
          if col < |tetrimino.shape[row]| && tetrimino.shape[row][col] {
            var relativeRow := position.y + row;
            var relativeCol := position.x + col;
            // A piece that lands before it has fully entered the well has rows above row 0
            if 0 <= relativeRow < rows {
              assert Writes(tetrimino, position, rows, row, col);
              blockCount := blockCount + 1;
              grid[relativeRow, relativeCol] := Block(blockCount, tetrimino.color);
            }
          }
          col := col + 1;
        }
        row := row + 1;
      }
      cells := Placed(g0, tetrimino, position, base);
    }

    /** Clears every complete line, scanning from the bottom row up and
        looking at the same row index again after each removal, since the row
        above has then moved into it. Returns how many lines were cleared. */
    method ClearLinesFromGrid() returns (linesCleared: nat)
      requires Shaped()
      modifies this`cells, grid
      ensures Shaped()
      ensures cells == Cleared(old(cells), cols)
      ensures linesCleared == CountFull(old(cells))
      ensures NoFullRow(cells)
    {
      ghost var g0 := cells;
      // the rows g0[p..] have been examined; g0[..p] still wait above them
      ghost var p: nat := rows;
      linesCleared := 0;
      var row: int := rows - 1;
      ScannedEnds(g0, cols);
      assert g0[rows..] == [];
      while row >= 0
        invariant Shaped() && Scanning(g0, p, linesCleared, row)
        decreases rows - linesCleared, row
      {
        var isLine := ExamineRow(row, g0, p, linesCleared);
        if isLine {
          linesCleared := linesCleared + 1;
          p := p - 1;
          // the row above has sunk into this index: examine it next
          row := row + 1;
        } else if p > 0 {
          p := p - 1;
        }
        row := row - 1;
      }
      assert p == 0 && g0[p..] == g0;
      ClearedHasNoFullRow(g0, cols);
    }

    /** Where the clearing scan stands: the rows `g0[p..]` have been examined
        and `n` of them were complete lines, the grid holds `Scanned(g0, p, n)`,
        and `row` is the index the next unexamined row has sunk to. */
    ghost predicate Scanning(g0: Matrix, p: nat, n: nat, row: int)
      reads this, grid
    {
      && |g0| == rows && p <= rows && -1 <= row < rows && n + p <= rows
      && n == CountFull(g0[p..]) && cells == Scanned(g0, p, n, cols)
      && row + 1 <= n + p && (p > 0 ==> row + 1 == n + p)
    }

    /** One step of the clearing scan: row `row` is a complete line exactly
        when the scan still has unexamined rows and the next one is full; it
        is then removed and the same index is looked at again. */
    method ExamineRow(row: nat, ghost g0: Matrix, ghost p: nat, n: nat) returns (isLine: bool)
      requires Shaped() && Scanning(g0, p, n, row)
      modifies this`cells, grid
      ensures Shaped()
      // after a removal the caller's row++ and the loop's row-- cancel out
      ensures isLine ==> p > 0 && Scanning(g0, p - 1, n + 1, row + 1 - 1)
      ensures !isLine ==> Scanning(g0, if p > 0 then p - 1 else p, n, row - 1)
    {
      ScannedRowAt(g0, p, n, cols, row);
      isLine := IsLine(row);
      if isLine {
        ScanRemovesLine(g0, row - n, n, cols);
        assert row - n + 1 == p;
        RemoveGridRow(row);
      } else if p > 0 {
        ScanKeepsRow(g0, p - 1, n, cols);
      }
    }

    /** Scans row `row` from the right and reports whether it is a complete line. */
    method IsLine(row: nat) returns (isLine: bool)
      requires Shaped() && row < rows
      ensures isLine <==> FullRow(cells[row])
    {
      isLine := true;
      var col: int := cols - 1;
      while col >= 0
        invariant -1 <= col < cols
        invariant isLine <==> forall c :: col < c < cols ==> cells[row][c].Block?
      {
        if grid[row, col].Empty? {
          isLine := false;
        }
        col := col - 1;
      }
    }
  }

  /** Between landings every occupied cell yields its own render key: the
      text before `#` of its stored value differs from that of any other
      occupied cell, whenever colors are palette tokens. */
  lemma RenderKeysDistinct(g: Matrix, r1: nat, c1: nat, r2: nat, c2: nat)
    requires IdsDistinct(g)
    requires r1 < |g| && c1 < |g[r1]| && r2 < |g| && c2 < |g[r2]| && (r1 != r2 || c1 != c2)
    requires g[r1][c1].Block? && g[r2][c2].Block?
    requires BlockValue.IsColorToken(g[r1][c1].color) && BlockValue.IsColorToken(g[r2][c2].color)
    ensures BlockValue.IdFromBlockValue(BlockValue.Encode(g[r1][c1].id, g[r1][c1].color)) !=
            BlockValue.IdFromBlockValue(BlockValue.Encode(g[r2][c2].id, g[r2][c2].color))
  {
    assert RowIdsApart(g[r1], g[r2], r1 == r2);
    BlockValue.KeysDistinct(g[r1][c1].id, g[r1][c1].color, g[r2][c2].id, g[r2][c2].color);
  }
}
