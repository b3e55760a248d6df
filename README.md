# WellGrid: the landed-block matrix of a falling-block game

This project models the non-rendering logic of the `WellGrid` component
(`src/components/WellGrid.jsx`). The component holds a fixed `rows x cols`
matrix. Each cell is empty (`null`) or holds a block value. It also keeps a
running counter `gridBlockCount`, which numbers the blocks so that every
block has its own key.

The model is split into four modules:

- `Grid` (grid.dfy) holds the matrix as a value. It defines cells, complete
  lines and row removal. It also gives clearing a declarative meaning:
  `Cleared(g) = EmptyRows(CountFull(g)) + Kept(g)`. That is, the rows that
  are not complete lines sink to the bottom in their original order, and one
  empty row per cleared line fills the top. The module also proves that the
  bottom-up scan of the component arrives at that grid.
- `Landing` (landing.dfy) says what merging a landed piece writes.
  - The piece cells that are written, and their row-major write order
    (`Rank`).
  - The grid after writing (`Placed`), before any clearing.
  - How many ids are handed out (`Written`).
- `BlockValue` (block_value.dfy) covers the text form of a stored block.
  That form is the decimal id followed by the color token, such as
  `"7#3cc7d6"`. The module also has the two getters that split such a value
  at `#`.
- `Well` (well.dfy) is the component itself: a class over an
  `array2<Cell>` that is updated in place.
  - The merge, line-clearing and row-removal methods use the same nested
    loops as the component, in the same direction.
  - Line clearing keeps the component's `row++` step, which re-examines a
    row index after each removal.
  - A ghost field `cells` mirrors the array as a matrix value. Every method
    is specified by how it moves `cells` under the `Grid` and `Landing`
    functions.
  - `Valid()` is what holds between landings: the configured dimensions, no
    complete line, pairwise distinct block ids, and no id above the counter.

A grid cell holds `Block(id, color)` rather than the concatenated string
`id + color`. `BlockValue.EncodeRoundTrip` shows that the string carries
exactly that pair whenever the color is a palette token (`#` followed by
characters other than `#`).

## Model

| member | source | states |
|---|---|---|
| `Well.WellGrid.constructor` | src/components/WellGrid.jsx:13-23 | The new grid is `rows x cols` and all empty, the counter is 0, and the invariant `Valid()` holds. |
| `Well.WellGrid.EmptyGridValid` | src/components/WellGrid.jsx:16-21 | An all-empty grid with the counter at 0 satisfies the invariant between landings. |
| `Well.WellGrid.Reset` | src/components/WellGrid.jsx:80-87 | The grid becomes a fresh all-empty matrix of the same dimensions, the counter returns to 0, and the invariant holds again. |
| `Well.WellGrid.TransferTetriminoBlocksToGrid` | src/components/WellGrid.jsx:89-128 | A merge keeps the invariant: no complete line, distinct ids, and none above the counter. The counter grows by exactly the number of cells written. The result is the number of complete lines in the grid after writing. The new grid is that grid with its lines cleared. |
| `Well.WellGrid.StoreTetriminoBlocks` | src/components/WellGrid.jsx:97-114 | The nested merge loops leave exactly `Placed(old grid)`: every truthy piece cell whose target row exists holds a new block with the piece's color, and every other cell is unchanged. The last id handed out is the counter plus the number written. |
| `Well.WellGrid.ClearLinesFromGrid` | src/components/WellGrid.jsx:130-159 | It returns the number of complete lines in the input. The result grid is the non-full rows in their original order, at the bottom, under one empty row per cleared line. No complete line is left. |
| `Well.WellGrid.ExamineRow` | src/components/WellGrid.jsx:141-156 | One scan step. The row is a complete line exactly when unexamined rows remain and the next one is full. It is then removed and the same index is examined again. Otherwise the scan moves one row up. |
| `Well.WellGrid.IsLine` | src/components/WellGrid.jsx:142-148 | The right-to-left cell scan reports true exactly when every cell of the row is occupied. |
| `Well.WellGrid.RemoveGridRow` | src/components/WellGrid.jsx:161-174 | Rows below the removed one are unchanged. Each row `r` with `1 <= r <= k` holds the old row `r-1`. Row 0 is empty. The dimensions stay. |
| `Well.RenderKeysDistinct` | src/components/WellGrid.jsx:56-58 | Between landings, two different occupied cells never produce the same render key, provided both blocks carry palette colors (`#` followed by characters other than `#`). The invariant does not record colors, so this assumption rests on the pieces' colors. |
| `Grid.KeptPartition` | src/components/WellGrid.jsx:141-156 | Every row is either kept or counted as a cleared line. Kept rows come from the input and are not complete lines. |
| `Grid.ClearedHasNoFullRow` | src/components/WellGrid.jsx:130-135 | Clearing keeps the height and the width of every row, and leaves no complete line. |
| `Grid.ClearedIdempotent` | src/components/WellGrid.jsx:141-158 | A second clearing with no merge in between counts 0 lines and changes nothing. |
| `Grid.StackedClears` | src/components/WellGrid.jsx:150-156 | Two adjacent complete lines are both cleared in one pass, because the same index is re-examined after a removal. The rows above and below them end up at the bottom, in order. |
| `Grid.RemovedRowAt` | src/components/WellGrid.jsx:168-172 | Cell by cell: row 0 is empty, rows `1..k` hold the rows that were one place higher, and rows below `k` are unchanged. |
| `Grid.RemovedRowKeepsDistinct` | src/components/WellGrid.jsx:171 | Row removal copies block values unchanged, so distinct ids stay distinct. |
| `Grid.RemovedRowKeepsBound` | src/components/WellGrid.jsx:171 | Row removal never raises an id above a bound the grid already respected. |
| `Grid.ScanKeepsRow` | src/components/WellGrid.jsx:141-156 | Examining a row that is not full moves it, unchanged and in place, into the kept part of the scan. |
| `Grid.ScanRemovesLine` | src/components/WellGrid.jsx:150-155 | Removing a full row found by the scan adds one empty row on top and increases the line count by one. Everything else keeps its order. |
| `Grid.ScanFromIsScanned` | src/components/WellGrid.jsx:139-158 | The scan built removal by removal agrees, at every stage, with the closed form: empty rows, then unexamined rows, then kept rows. |
| `Grid.ClearedKeepsIds` | src/components/WellGrid.jsx:150-152 | Clearing only moves or discards blocks. Distinct ids stay distinct and no id grows. |
| `Landing.RankStrict` | src/components/WellGrid.jsx:111 | `++blockCount` gives a written piece cell a strictly smaller number than any later position in row-major order. |
| `Landing.RankBelowWritten` | src/components/WellGrid.jsx:111 | Every written cell is numbered below the total number of cells written. |
| `Landing.RankOnto` | src/components/WellGrid.jsx:111 | Every number below a position's rank is the rank of some written cell that comes before that position in row-major order, so the numbering leaves no gap. `Landing.RankStrict` makes that cell unique. |
| `Landing.PlacedKeepsIds` | src/components/WellGrid.jsx:111 | After writing, ids are still pairwise distinct, and the largest id is at most the old counter plus the number written. |
| `Landing.PlacedIdsConsecutive` | src/components/WellGrid.jsx:111 | Each id from `old counter + 1` to `old counter + written` sits in some grid cell, with the piece's color. |
| `Landing.LandingAboveWell` | src/components/WellGrid.jsx:107-112 | A piece whose occupied cells all lie above row 0 writes nothing. The counter stays and the grid is unchanged. On a grid without complete lines, no line is cleared. |
| `Landing.LandingKeepsInvariant` | src/components/WellGrid.jsx:114-124 | Writing a piece and then clearing preserves the dimensions, leaves no full row, keeps ids distinct, and keeps every id at most the advanced counter. |
| `BlockValue.Encode` | src/components/WellGrid.jsx:111 | The stored value `++blockCount + color` has the id's digits first, which contain no `#`. With a palette color, a `#` follows them directly, so the first `#` marks where the id ends. |
| `BlockValue.IdFromBlockValue` | src/components/WellGrid.jsx:176-178 | The id getter returns the longest prefix of the value that has no `#`: it is a prefix, it holds no `#`, and it is followed by `#` or the end of the value. |
| `BlockValue.ColorFromBlockValue` | src/components/WellGrid.jsx:180-182 | Without any `#` the color getter gives `#undefined`. Otherwise it gives `#` followed by the text after the first `#`, up to the next `#` or the end of the value. |
| `BlockValue.ParseDecimalOfDecimal` | src/components/WellGrid.jsx:111 | The decimal text of an id reads back as the same number. |
| `BlockValue.Split` | src/components/WellGrid.jsx:176-182 | Splitting at `#` gives at least one piece, and no piece contains `#`. |
| `BlockValue.JoinSplit` | src/components/WellGrid.jsx:176-182 | Gluing the pieces back together with `#` restores the split text. |
| `BlockValue.SplitJoin` | src/components/WellGrid.jsx:176-182 | Splitting undoes joining when no part contains the separator. |
| `BlockValue.EncodeRoundTrip` | src/components/WellGrid.jsx:176-182 | `_getIdFromBlockValue(id + color)` is the decimal text of `id`. `_getColorFromBlockValue(id + color)` is `color`, for a palette color. |
| `BlockValue.NoHashValue` | src/components/WellGrid.jsx:180-182 | A value without `#` is its own id text, and its color reads as `#undefined`, as JavaScript's `'#' + undefined` gives. |
| `BlockValue.KeysDistinct` | src/components/WellGrid.jsx:176-178 | For palette colors, different ids yield different id texts. |
| `BlockValue.KeysCollideWithoutPalette` | src/components/WellGrid.jsx:176-178 | Without the palette assumption two ids can share a key: `7` with color `1#x` and `71` with color `#x` both store `71#x`. |

## Left out

- Rendering is not modelled. That covers `render`, `_renderGridBlocks` and the `squareBlock` child factory, which are React/DOM output with floating-point percentage layout. Only the key-uniqueness fact they rely on is stated (`Well.RenderKeysDistinct`).
- `shouldComponentUpdate` and React's `setState` mechanics are not modelled. `setState` is modelled as a plain assignment of the fields, made at the point where the component calls it.
- `../lib/grid.js` (`generateEmptyMatrix`) is not part of this model. It is taken to produce an all-empty `rows x cols` matrix.
- `../constants.js` is not part of this model. The constructor requires `rows >= 1` and `cols >= 1` instead of reading the configured sizes.
- `SquareBlock.jsx`, `WellGrid.less` and `react-component-tree` are not part of this model.
- A grid cell stores the pair `(id, color)`. The concatenated string is modelled separately (`BlockValue.Encode`).
- JavaScript's number-to-string conversion is modelled only for non-negative integers written in plain decimal. Ids are unbounded `nat`s, so the loss of precision above 2^53 and the exponent notation of very large numbers are not modelled.
- `Well.WellGrid.TransferTetriminoBlocksToGrid` requires every written piece cell to fall inside the grid's columns (`ColumnsFit`). The component does not check columns: it relies on its caller's collision detection, and an out-of-range column would add a property to a JavaScript row array. The requirement `|shape| >= 1` matches the component's read of `grid[0].length`, which throws on an empty shape.
- `Well.WellGrid.ClearLinesFromGrid` clears this object's own grid. The component takes the grid as a parameter, but it always passes `this.state.grid` and removes rows from that same grid.
- `Well.WellGrid.StoreTetriminoBlocks` and `Well.WellGrid.ExamineRow` are the merge loops and the clearing-loop body, lifted into their own methods. The statements and their order are those of the component.
