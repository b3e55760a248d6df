/** What merging a landed piece writes into the grid, before any line is
    cleared: which piece cells land, in which order they are numbered, and the
    grid that results. */
module Landing {
  import opened Grid

  /** The piece snapshot handed over at landing time: its shape matrix (a
      true entry is an occupied cell) and its color. */
  datatype Piece = Piece(shape: seq<seq<bool>>, color: string)

  /** Where the piece's top-left corner sits in grid coordinates. */
  datatype Position = Position(x: int, y: int)

  /** The number of shape columns scanned: the length of the first shape row. */
  function Width(p: Piece): nat
    requires |p.shape| >= 1
  {
    |p.shape[0]|
  }

  /** Shape cell (r, c) is scanned and truthy; a cell past the end of a
      shorter row reads as missing, hence blank. */
  predicate Solid(p: Piece, r: int, c: int)
    requires |p.shape| >= 1
  {
    0 <= r < |p.shape| && 0 <= c < Width(p) && c < |p.shape[r]| && p.shape[r][c]
  }

  /** Shape row r falls on an existing grid row. */
  predicate Lands(pos: Position, rows: nat, r: int)
  {
    0 <= pos.y + r < rows
  }

  /** Shape cell (r, c) is written into the grid. */
  predicate Writes(p: Piece, pos: Position, rows: nat, r: int, c: int)
    requires |p.shape| >= 1
  {
    Solid(p, r, c) && Lands(pos, rows, r)
  }

  /** Every written cell falls inside the grid's columns. */
  ghost predicate ColumnsFit(p: Piece, pos: Position, rows: nat, cols: nat)
    requires |p.shape| >= 1
  {
    forall r, c :: Writes(p, pos, rows, r, c) ==> 0 <= pos.x + c < cols
  }

  /** Cells written in shape row r strictly left of column c. */
  function CountInRow(p: Piece, pos: Position, rows: nat, r: nat, c: nat): nat
    requires |p.shape| >= 1 && r < |p.shape| && c <= Width(p)
  {
    if c == 0 then 0
    else CountInRow(p, pos, rows, r, c - 1) + (if Writes(p, pos, rows, r, c - 1) then 1 else 0)
  }

  /** Cells written in shape rows above r. */
  function CountBefore(p: Piece, pos: Position, rows: nat, r: nat): nat
    requires |p.shape| >= 1 && r <= |p.shape|
  {
    if r == 0 then 0
    else CountBefore(p, pos, rows, r - 1) + CountInRow(p, pos, rows, r - 1, Width(p))
  }

  /** Cells written before (r, c) in row-major order: the number of ids handed
      out before the one of (r, c). */
  function Rank(p: Piece, pos: Position, rows: nat, r: nat, c: nat): nat
    requires |p.shape| >= 1 && r < |p.shape| && c <= Width(p)
  {
    CountBefore(p, pos, rows, r) + CountInRow(p, pos, rows, r, c)
  }

  /** Number of cells the merge writes, i.e. by how much the id counter grows. */
  function Written(p: Piece, pos: Position, rows: nat): nat
    requires |p.shape| >= 1
  {
    CountBefore(p, pos, rows, |p.shape|)
  }

  /** Grid cell (gr, gc) receives a piece cell. */
  predicate Targets(p: Piece, pos: Position, rows: nat, gr: int, gc: int)
    requires |p.shape| >= 1
  {
    Writes(p, pos, rows, gr - pos.y, gc - pos.x)
  }

  /** The new content of grid cell (gr, gc): a fresh block numbered after
      `base` in write order when the piece covers it, the old cell otherwise. */
  function PlacedCell(g: Matrix, p: Piece, pos: Position, base: nat, gr: nat, gc: nat): Cell
    requires |p.shape| >= 1 && gr < |g| && gc < |g[gr]|
  {
    if Targets(p, pos, |g|, gr, gc)
    then Block(base + Rank(p, pos, |g|, gr - pos.y, gc - pos.x) + 1, p.color)
    else g[gr][gc]
  }

  /** The grid after every written piece cell has been stored. */
  function Placed(g: Matrix, p: Piece, pos: Position, base: nat): (h: Matrix)
    requires |p.shape| >= 1
    ensures |h| == |g|
    ensures forall r :: 0 <= r < |g| ==> |h[r]| == |g[r]|
    ensures forall r, c :: 0 <= r < |g| && 0 <= c < |g[r]| ==> h[r][c] == PlacedCell(g, p, pos, base, r, c)
  {
    seq(|g|, r requires 0 <= r < |g| =>
      seq(|g[r]|, c requires 0 <= c < |g[r]| => PlacedCell(g, p, pos, base, r, c)))
  }

  /** (r1, c1) comes strictly before (r2, c2) in row-major order. */
  predicate Before(r1: int, c1: int, r2: int, c2: int)
  {
    r1 < r2 || (r1 == r2 && c1 < c2)
  }

  // ---------------------------------------------------------------------
  // Write order

  /** Handing out ids in row-major order never goes backwards. */
  lemma {:induction false} RankMonotone(p: Piece, pos: Position, rows: nat, r1: nat, c1: nat, r2: nat, c2: nat)
    requires |p.shape| >= 1
    requires r1 < |p.shape| && c1 <= Width(p) && r2 < |p.shape| && c2 <= Width(p)
    requires !Before(r2, c2, r1, c1)
    ensures Rank(p, pos, rows, r1, c1) <= Rank(p, pos, rows, r2, c2)
    decreases r2, c2
  {
    if r1 == r2 && c1 == c2 {
    } else if c2 > 0 {
      RankMonotone(p, pos, rows, r1, c1, r2, c2 - 1);
    } else {
      RankMonotone(p, pos, rows, r1, c1, r2 - 1, Width(p));
    }
  }

  /** A written cell's rank is below the rank of every later position, and
      below the total number of written cells. */
  lemma RankStrict(p: Piece, pos: Position, rows: nat, r1: nat, c1: nat, r2: nat, c2: nat)
    requires |p.shape| >= 1
    requires Writes(p, pos, rows, r1, c1)
    requires r2 < |p.shape| && c2 <= Width(p) && Before(r1, c1, r2, c2)
    ensures Rank(p, pos, rows, r1, c1) < Rank(p, pos, rows, r2, c2)
  {
    RankMonotone(p, pos, rows, r1, c1 + 1, r2, c2);
  }

  lemma RankBelowWritten(p: Piece, pos: Position, rows: nat, r: nat, c: nat)
    requires |p.shape| >= 1
    requires Writes(p, pos, rows, r, c)
    ensures Rank(p, pos, rows, r, c) < Written(p, pos, rows)
  {
    var last := |p.shape| - 1;
    RankMonotone(p, pos, rows, r, c + 1, last, Width(p));
  }

  /** Every rank below the rank of position (r, c) belongs to a written cell
      before (r, c): the ids handed out leave no gap. That cell is unique by
      `RankStrict`. */
  lemma {:induction false} RankOnto(p: Piece, pos: Position, rows: nat, r: nat, c: nat, k: nat)
    requires |p.shape| >= 1 && r < |p.shape| && c <= Width(p)
    requires k < Rank(p, pos, rows, r, c)
    ensures exists r', c' :: 0 <= r' < |p.shape| && 0 <= c' < Width(p) &&
                              Writes(p, pos, rows, r', c') && Rank(p, pos, rows, r', c') == k &&
                              Before(r', c', r, c)
    decreases r, c
  {
    if c > 0 {
      if k < Rank(p, pos, rows, r, c - 1) {
        RankOnto(p, pos, rows, r, c - 1, k);
      } else {
        assert Writes(p, pos, rows, r, c - 1) && Rank(p, pos, rows, r, c - 1) == k;
      }
    } else {
      assert r > 0;
      RankOnto(p, pos, rows, r - 1, Width(p), k);
    }
  }

  // ---------------------------------------------------------------------
  // The placed grid

  /** Merging keeps ids pairwise distinct: new blocks are numbered
      `base + 1 .. base + Written` in write order, all above every id already
      in the grid, and the grid's ids end up at most `base + Written`. */
  lemma PlacedKeepsIds(g: Matrix, p: Piece, pos: Position, base: nat)
    requires |p.shape| >= 1
    requires IdsDistinct(g) && IdsAtMost(g, base)
    ensures IdsDistinct(Placed(g, p, pos, base))
    ensures IdsAtMost(Placed(g, p, pos, base), base + Written(p, pos, |g|))
  {
    var h: Matrix := Placed(g, p, pos, base);
    var rows := |g|;
    forall r: int, c: int | 0 <= r < |h| && 0 <= c < |h[r]| && h[r][c].Block?
      ensures h[r][c].id <= base + Written(p, pos, rows)
    {
      if Targets(p, pos, rows, r, c) {
        RankBelowWritten(p, pos, rows, r - pos.y, c - pos.x);
      }
    }
    forall r1: int, c1: int, r2: int, c2: int |
      0 <= r1 < |h| && 0 <= c1 < |h[r1]| && 0 <= r2 < |h| && 0 <= c2 < |h[r2]| &&
      h[r1][c1].Block? && h[r2][c2].Block? && (r1 != r2 || c1 != c2)
      ensures h[r1][c1].id != h[r2][c2].id
    {
      var t1 := Targets(p, pos, rows, r1, c1);
      var t2 := Targets(p, pos, rows, r2, c2);
      var pr1, pc1, pr2, pc2 := r1 - pos.y, c1 - pos.x, r2 - pos.y, c2 - pos.x;
      if t1 && t2 {
        if Before(pr1, pc1, pr2, pc2) {
          RankStrict(p, pos, rows, pr1, pc1, pr2, pc2);
        } else {
          RankStrict(p, pos, rows, pr2, pc2, pr1, pc1);
        }
      }
    }
  }

  /** The new blocks carry exactly the ids `base + 1 .. base + Written`: each
      of them sits in some grid cell, with the piece's color. */
  lemma PlacedIdsConsecutive(g: Matrix, p: Piece, pos: Position, base: nat, cols: nat, id: nat)
    requires |p.shape| >= 1 && Rectangular(g, cols)
    requires ColumnsFit(p, pos, |g|, cols)
    requires base < id <= base + Written(p, pos, |g|)
    ensures exists r, c :: 0 <= r < |g| && 0 <= c < cols &&
                           Placed(g, p, pos, base)[r][c] == Block(id, p.color)
  {
    var rows := |g|;
    var last := |p.shape| - 1;
    RankOnto(p, pos, rows, last, Width(p), id - base - 1);
    var pr, pc :| 0 <= pr < |p.shape| && 0 <= pc < Width(p) &&
                  Writes(p, pos, rows, pr, pc) && Rank(p, pos, rows, pr, pc) == id - base - 1;
    var gr, gc := pos.y + pr, pos.x + pc;
    assert Targets(p, pos, rows, gr, gc);
    assert Placed(g, p, pos, base)[gr][gc] == Block(id, p.color);
  }

  /** A piece all of whose occupied cells lie above the grid writes nothing:
      the counter does not move and the grid is unchanged; on a grid without
      complete lines it then clears nothing. */
  lemma LandingAboveWell(g: Matrix, p: Piece, pos: Position, base: nat, cols: nat)
    requires |p.shape| >= 1
    requires forall r, c :: Solid(p, r, c) ==> pos.y + r < 0
    ensures Written(p, pos, |g|) == 0
    ensures Placed(g, p, pos, base) == g
    ensures NoFullRow(g) ==> CountFull(Placed(g, p, pos, base)) == 0 &&
                             Cleared(Placed(g, p, pos, base), cols) == g
  {
    NothingWritten(p, pos, |g|, |p.shape|);
    var h: Matrix := Placed(g, p, pos, base);
    assert forall r :: 0 <= r < |g| ==> h[r] == g[r];
    if NoFullRow(g) {
      KeptOfNoFullRow(g);
      assert EmptyRows(0, cols) == [];
    }
  }

  lemma {:induction false} NothingWritten(p: Piece, pos: Position, rows: nat, r: nat)
    requires |p.shape| >= 1 && r <= |p.shape|
    requires forall r, c :: Solid(p, r, c) ==> pos.y + r < 0
    ensures CountBefore(p, pos, rows, r) == 0
  {
    if r > 0 {
      NothingWritten(p, pos, rows, r - 1);
      NothingWrittenInRow(p, pos, rows, r - 1, Width(p));
    }
  }

  lemma {:induction false} NothingWrittenInRow(p: Piece, pos: Position, rows: nat, r: nat, c: nat)
    requires |p.shape| >= 1 && r < |p.shape| && c <= Width(p)
    requires forall r, c :: Solid(p, r, c) ==> pos.y + r < 0
    ensures CountInRow(p, pos, rows, r, c) == 0
  {
    if c > 0 {
      NothingWrittenInRow(p, pos, rows, r, c - 1);
    }
  }

  /** A landing followed by clearing keeps what holds between landings: the
      dimensions, no complete line standing, distinct ids, and every id at
      most the counter moved past the new blocks. */
  lemma LandingKeepsInvariant(g: Matrix, p: Piece, pos: Position, base: nat, cols: nat)
    requires |p.shape| >= 1 && cols >= 1 && Rectangular(g, cols)
    requires IdsDistinct(g) && IdsAtMost(g, base)
    ensures |Cleared(Placed(g, p, pos, base), cols)| == |g|
    ensures Rectangular(Cleared(Placed(g, p, pos, base), cols), cols)
    ensures NoFullRow(Cleared(Placed(g, p, pos, base), cols))
    ensures IdsDistinct(Cleared(Placed(g, p, pos, base), cols))
    ensures IdsAtMost(Cleared(Placed(g, p, pos, base), cols), base + Written(p, pos, |g|))
  {
    var h := Placed(g, p, pos, base);
    assert Rectangular(h, cols);
    ClearedHasNoFullRow(h, cols);
    PlacedKeepsIds(g, p, pos, base);
    ClearedKeepsIds(h, cols, base + Written(p, pos, |g|));
  }
}
