/** The well grid as a value: a matrix of cells, full rows, row removal and
    the declarative meaning of clearing all complete lines. */
module Grid {

  /** A grid cell: empty (`null` in the component) or a landed block that
      carries its identity and the color of the piece that placed it. */
  datatype Cell = Empty | Block(id: nat, color: string)

  type Row = seq<Cell>
  type Matrix = seq<Row>

  /** Every row of `g` has exactly `cols` cells. */
  ghost predicate Rectangular(g: Matrix, cols: nat)
  {
    forall r :: 0 <= r < |g| ==> |g[r]| == cols
  }

  /** A row is a complete line when every one of its cells is occupied. */
  predicate FullRow(row: Row)
  {
    forall c :: 0 <= c < |row| ==> row[c].Block?
  }

  ghost predicate NoFullRow(g: Matrix)
  {
    forall r :: 0 <= r < |g| ==> !FullRow(g[r])
  }

  function EmptyRow(cols: nat): (row: Row)
    ensures |row| == cols
    ensures forall c :: 0 <= c < cols ==> row[c] == Empty
  {
    seq(cols, _ => Empty)
  }

  /** `n` empty rows of width `cols`: the all-empty matrix when `n` is the row count. */
  function EmptyRows(n: nat, cols: nat): (g: Matrix)
    ensures |g| == n
    ensures forall r :: 0 <= r < n ==> g[r] == EmptyRow(cols)
  {
    seq(n, _ => EmptyRow(cols))
  }

  lemma EmptyRowNotFull(cols: nat)
    requires cols >= 1
    ensures !FullRow(EmptyRow(cols))
  {
    assert EmptyRow(cols)[0] == Empty;
  }

  /** Number of complete lines in `g`. */
  function CountFull(g: Matrix): (n: nat)
    ensures n <= |g|
  {
    if g == [] then 0 else (if FullRow(g[0]) then 1 else 0) + CountFull(g[1..])
  }

  /** The rows of `g` that are not complete lines, in their original order. */
  function Kept(g: Matrix): Matrix
  {
    if g == [] then [] else (if FullRow(g[0]) then [] else [g[0]]) + Kept(g[1..])
  }

  /** What clearing does to a grid: the rows that are not complete lines keep
      their order and sink to the bottom, and one empty row per cleared line
      fills the top. */
  function Cleared(g: Matrix, cols: nat): Matrix
  {
    EmptyRows(CountFull(g), cols) + Kept(g)
  }

  /** Row `k` deleted, every row above it one place lower, an empty row on top. */
  function RemovedRow(g: Matrix, k: nat, cols: nat): Matrix
    requires k < |g|
  {
    [EmptyRow(cols)] + g[..k] + g[k + 1..]
  }

  /** Occupied cells of rows `a` and `b` carry different ids; when `same`
      holds, `a` and `b` are one row and a cell is not compared with itself. */
  ghost predicate RowIdsApart(a: Row, b: Row, same: bool)
  {
    forall c1, c2 :: 0 <= c1 < |a| && 0 <= c2 < |b| && a[c1].Block? && b[c2].Block? && (!same || c1 != c2)
      ==> a[c1].id != b[c2].id
  }

  /** Occupied cells at different positions carry different ids. */
  ghost predicate IdsDistinct(g: Matrix)
  {
    forall r1, r2 :: 0 <= r1 < |g| && 0 <= r2 < |g| ==> RowIdsApart(g[r1], g[r2], r1 == r2)
  }

  /** No occupied cell carries an id above `bound`. */
  ghost predicate IdsAtMost(g: Matrix, bound: nat)
  {
    forall r, c :: 0 <= r < |g| && 0 <= c < |g[r]| && g[r][c].Block? ==> g[r][c].id <= bound
  }

  // ---------------------------------------------------------------------
  // Clearing

  /** Every row is either kept or counted as a complete line, and the kept
      rows are rows of `g` that are not complete lines. */
  lemma {:induction false} KeptPartition(g: Matrix)
    ensures |Kept(g)| + CountFull(g) == |g|
    ensures forall r :: 0 <= r < |Kept(g)| ==> Kept(g)[r] in g && !FullRow(Kept(g)[r])
  {
    if g != [] {
      KeptPartition(g[1..]);
      var head := if FullRow(g[0]) then [] else [g[0]];
      assert Kept(g) == head + Kept(g[1..]);
      forall r | 0 <= r < |Kept(g)|
        ensures Kept(g)[r] in g && !FullRow(Kept(g)[r])
      {
        if r >= |head| {
          assert Kept(g)[r] == Kept(g[1..])[r - |head|];
          assert Kept(g)[r] in g[1..];
        }
      }
    }
  }

  /** Clearing keeps the dimensions and leaves no complete line behind. */
  lemma ClearedHasNoFullRow(g: Matrix, cols: nat)
    requires cols >= 1 && Rectangular(g, cols)
    ensures |Cleared(g, cols)| == |g|
    ensures Rectangular(Cleared(g, cols), cols)
    ensures NoFullRow(Cleared(g, cols))
  {
    KeptPartition(g);
    var h := Cleared(g, cols);
    var n := CountFull(g);
    forall r | 0 <= r < |h|
      ensures |h[r]| == cols && !FullRow(h[r])
    {
      if r < n {
        assert h[r] == EmptyRow(cols);
        assert h[r][0] == Empty;
      } else {
        assert h[r] == Kept(g)[r - n];
      }
    }
  }

  /** A grid with no complete line is a fixed point of clearing. */
  lemma {:induction false} KeptOfNoFullRow(g: Matrix)
    requires NoFullRow(g)
    ensures CountFull(g) == 0 && Kept(g) == g
  {
    if g != [] {
      assert !FullRow(g[0]);
      KeptOfNoFullRow(g[1..]);
      assert [g[0]] + g[1..] == g;
    }
  }

  /** Clearing twice in a row clears nothing the second time and changes
      nothing. */
  lemma ClearedIdempotent(g: Matrix, cols: nat)
    requires cols >= 1 && Rectangular(g, cols)
    ensures CountFull(Cleared(g, cols)) == 0
    ensures Cleared(Cleared(g, cols), cols) == Cleared(g, cols)
  {
    ClearedHasNoFullRow(g, cols);
    KeptOfNoFullRow(Cleared(g, cols));
    assert EmptyRows(0, cols) == [];
  }

  lemma {:induction false} CountFullAppend(a: Matrix, b: Matrix)
    ensures CountFull(a + b) == CountFull(a) + CountFull(b)
    ensures Kept(a + b) == Kept(a) + Kept(b)
  {
    if a == [] {
      assert a + b == b;
    } else {
      assert (a + b)[1..] == a[1..] + b;
      CountFullAppend(a[1..], b);
    }
  }

  /** Four rows of which the middle two are complete lines: both are cleared
      in one pass and the two remaining rows land at the bottom in order. */
  lemma StackedClears(top: Row, full1: Row, full2: Row, bottom: Row, cols: nat)
    requires FullRow(full1) && FullRow(full2)
    requires !FullRow(top) && !FullRow(bottom)
    ensures CountFull([top, full1, full2, bottom]) == 2
    ensures Cleared([top, full1, full2, bottom], cols) == [EmptyRow(cols), EmptyRow(cols), top, bottom]
  {
    var g := [top, full1, full2, bottom];
    assert g == [top] + [full1] + [full2] + [bottom];
    CountFullAppend([top] + [full1] + [full2], [bottom]);
    CountFullAppend([top] + [full1], [full2]);
    CountFullAppend([top], [full1]);
    assert [top][1..] == [] && [bottom][1..] == [] && [full1][1..] == [] && [full2][1..] == [];
  }

  // ---------------------------------------------------------------------
  // Row removal

  /** Cell by cell: row 0 becomes empty, rows 1..k hold the rows that were
      one place higher, rows below k are as they were. */
  lemma RemovedRowAt(g: Matrix, k: nat, cols: nat, r: nat)
    requires k < |g| && r < |g|
    ensures |RemovedRow(g, k, cols)| == |g|
    ensures RemovedRow(g, k, cols)[r] ==
      if r == 0 then EmptyRow(cols) else if r <= k then g[r - 1] else g[r]
  {
  }

  /** Row removal only moves or discards blocks, so distinct ids stay distinct. */
  lemma RemovedRowKeepsDistinct(g: Matrix, k: nat, cols: nat)
    requires k < |g| && IdsDistinct(g)
    ensures IdsDistinct(RemovedRow(g, k, cols))
  {
    var h: Matrix := RemovedRow(g, k, cols);
    forall r1: int, r2: int | 0 <= r1 < |h| && 0 <= r2 < |h|
      ensures RowIdsApart(h[r1], h[r2], r1 == r2)
    {
      RemovedRowAt(g, k, cols, r1);
      RemovedRowAt(g, k, cols, r2);
      if r1 > 0 && r2 > 0 {
        var s1 := if r1 <= k then r1 - 1 else r1;
        var s2 := if r2 <= k then r2 - 1 else r2;
        assert h[r1] == g[s1] && h[r2] == g[s2] && RowIdsApart(g[s1], g[s2], s1 == s2);
      }
    }
  }

  /** Row removal only moves or discards blocks, so no id grows. */
  lemma RemovedRowKeepsBound(g: Matrix, k: nat, cols: nat, bound: nat)
    requires k < |g| && IdsAtMost(g, bound)
    ensures IdsAtMost(RemovedRow(g, k, cols), bound)
  {
    var h: Matrix := RemovedRow(g, k, cols);
    forall r: int, c: int | 0 <= r < |h| && 0 <= c < |h[r]| && h[r][c].Block?
      ensures h[r][c].id <= bound
    {
      RemovedRowAt(g, k, cols, r);
      assert r > 0;
      var s := if r <= k then r - 1 else r;
      assert h[r][c] == g[s][c];
    }
  }

  /** The grid part-way through a bottom-up clearing scan: `n` empty rows
      for the lines cleared so far, the rows `g[..p]` not examined yet, and
      the examined rows that were kept. */
  function Scanned(g: Matrix, p: nat, n: nat, cols: nat): Matrix
    requires p <= |g|
  {
    EmptyRows(n, cols) + g[..p] + Kept(g[p..])
  }

  lemma ScannedAt(g: Matrix, p: nat, n: nat, cols: nat, r: nat)
    requires p <= |g| && r < n + p
    ensures r < |Scanned(g, p, n, cols)|
    ensures Scanned(g, p, n, cols)[r] == if r < n then EmptyRow(cols) else g[r - n]
  {
  }

  /** The row the scan looks at is the next unexamined row, or an empty row
      once every row has been examined. */
  lemma ScannedRowAt(g: Matrix, p: nat, n: nat, cols: nat, row: nat)
    requires cols >= 1 && p <= |g| && row < n + p && (p > 0 ==> row + 1 == n + p)
    ensures row < |Scanned(g, p, n, cols)|
    ensures p > 0 ==> Scanned(g, p, n, cols)[row] == g[p - 1]
    ensures p == 0 ==> !FullRow(Scanned(g, p, n, cols)[row])
  {
    ScannedAt(g, p, n, cols, row);
    EmptyRowNotFull(cols);
  }

  /** Before the scan nothing is cleared and the grid is the input; after it
      the grid is the cleared input. */
  lemma ScannedEnds(g: Matrix, cols: nat)
    ensures Scanned(g, |g|, 0, cols) == g
    ensures Scanned(g, 0, CountFull(g), cols) == Cleared(g, cols)
  {
    assert g[..|g|] == g;
    assert g[|g|..] == [];
    assert g[..0] == [] && g[0..] == g;
  }

  /** Examining row `q`, which is not a complete line, moves it to the kept part. */
  lemma ScanKeepsRow(g: Matrix, q: nat, n: nat, cols: nat)
    requires q < |g| && !FullRow(g[q])
    ensures Scanned(g, q, n, cols) == Scanned(g, q + 1, n, cols)
    ensures CountFull(g[q..]) == CountFull(g[q + 1..])
  {
    assert g[q..][1..] == g[q + 1..];
    assert g[..q + 1] == g[..q] + [g[q]];
  }

  /** Removing row `q`, a complete line found by the scan, adds one empty row
      on top and leaves everything else in order. */
  lemma ScanRemovesLine(g: Matrix, q: nat, n: nat, cols: nat)
    requires q < |g| && FullRow(g[q])
    ensures n + q < |Scanned(g, q + 1, n, cols)|
    ensures RemovedRow(Scanned(g, q + 1, n, cols), n + q, cols) == Scanned(g, q, n + 1, cols)
    ensures CountFull(g[q..]) == CountFull(g[q + 1..]) + 1
  {
    assert g[q..][1..] == g[q + 1..];
    var h := Scanned(g, q + 1, n, cols);
    var k := n + q;
    assert h[..k] == EmptyRows(n, cols) + g[..q];
    assert h[k + 1..] == Kept(g[q + 1..]);
    assert [EmptyRow(cols)] + EmptyRows(n, cols) == EmptyRows(n + 1, cols);
  }

  /** The scan state after examining rows `g[p..]`, built step by step: a
      complete line is removed with `RemovedRow` at the index it has reached,
      any other row is left in place. */
  function ScanFrom(g: Matrix, p: nat, cols: nat): (s: Matrix)
    requires p <= |g|
    ensures |s| == |g|
    decreases |g| - p
  {
    if p == |g| then g
    else
      var s := ScanFrom(g, p + 1, cols);
      if FullRow(g[p]) then RemovedRow(s, CountFull(g[p + 1..]) + p, cols) else s
  }

  /** The step-by-step scan state agrees with its closed form. */
  lemma {:induction false} ScanFromIsScanned(g: Matrix, p: nat, cols: nat)
    requires p <= |g|
    ensures ScanFrom(g, p, cols) == Scanned(g, p, CountFull(g[p..]), cols)
    decreases |g| - p
  {
    if p == |g| {
      ScannedEnds(g, cols);
      assert g[p..] == [];
    } else {
      ScanFromIsScanned(g, p + 1, cols);
      var n := CountFull(g[p + 1..]);
      var s := Scanned(g, p + 1, n, cols);
      if FullRow(g[p]) {
        ScanRemovesLine(g, p, n, cols);
        assert ScanFrom(g, p, cols) == RemovedRow(s, n + p, cols) == Scanned(g, p, n + 1, cols);
      } else {
        ScanKeepsRow(g, p, n, cols);
        assert ScanFrom(g, p, cols) == s == Scanned(g, p, n, cols);
      }
    }
  }

  /** Every state of the scan keeps the ids of `g` distinct. */
  lemma {:induction false} ScanFromKeepsDistinct(g: Matrix, p: nat, cols: nat)
    requires p <= |g| && IdsDistinct(g)
    ensures IdsDistinct(ScanFrom(g, p, cols))
    decreases |g| - p
  {
    if p < |g| {
      ScanFromKeepsDistinct(g, p + 1, cols);
      var s := ScanFrom(g, p + 1, cols);
      if FullRow(g[p]) {
        var k := CountFull(g[p + 1..]) + p;
        RemovedRowKeepsDistinct(s, k, cols);
        assert ScanFrom(g, p, cols) == RemovedRow(s, k, cols);
      } else {
        assert ScanFrom(g, p, cols) == s;
      }
    }
  }

  /** Every state of the scan keeps the ids of `g` at most `bound`. */
  lemma {:induction false} ScanFromKeepsBound(g: Matrix, p: nat, cols: nat, bound: nat)
    requires p <= |g| && IdsAtMost(g, bound)
    ensures IdsAtMost(ScanFrom(g, p, cols), bound)
    decreases |g| - p
  {
    if p < |g| {
      ScanFromKeepsBound(g, p + 1, cols, bound);
      if FullRow(g[p]) {
        RemovedRowKeepsBound(ScanFrom(g, p + 1, cols), CountFull(g[p + 1..]) + p, cols, bound);
      }
    }
  }

  /** Clearing only moves or discards blocks: distinct ids stay distinct and
      no id grows. */
  lemma ClearedKeepsIds(g: Matrix, cols: nat, bound: nat)
    ensures IdsDistinct(g) ==> IdsDistinct(Cleared(g, cols))
    ensures IdsAtMost(g, bound) ==> IdsAtMost(Cleared(g, cols), bound)
  {
    ScanFromIsScanned(g, 0, cols);
    ScannedEnds(g, cols);
    assert g[0..] == g;
    if IdsDistinct(g) {
      ScanFromKeepsDistinct(g, 0, cols);
    }
    if IdsAtMost(g, bound) {
      ScanFromKeepsBound(g, 0, cols, bound);
    }
  }
}
