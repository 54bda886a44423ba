/**
 * The playing field and the falling piece as integer matrices: building an
 * empty grid, testing whether a piece placed at an offset collides, and the
 * grid that results from locking a piece into it.
 *
 * A matrix is a sequence of rows, row 0 at the top; cell value 0 is empty.
 */
module Board {

  type Grid = seq<seq<int>>

  /** A row of `w` empty cells (`new Array(w).fill(0)`). */
  function Zeros(w: nat): (row: seq<int>)
    ensures |row| == w
    ensures forall c :: 0 <= c < w ==> row[c] == 0
  {
    seq(w, _ => 0)
  }

  /** `k` empty rows of width `w`. */
  function ZeroRows(k: nat, w: nat): (g: Grid)
  {
    seq(k, _ => Zeros(w))
  }

  /** Builds an `h`-row grid of `w`-wide rows, every cell 0, one row per turn of the loop. */
  method CreateMatrix(w: nat, h: nat) returns (matrix: Grid)
    ensures |matrix| == h
    ensures forall r :: 0 <= r < h ==> |matrix[r]| == w
    ensures forall r, c :: 0 <= r < h && 0 <= c < |matrix[r]| ==> matrix[r][c] == 0
    ensures matrix == ZeroRows(h, w)
  {
    matrix := [];
    var left := h;
    while left > 0
      invariant 0 <= left <= h
      invariant |matrix| == h - left
      invariant forall r :: 0 <= r < |matrix| ==> matrix[r] == Zeros(w)
    {
      matrix := matrix + [Zeros(w)];
      left := left - 1;
    }
  }

  /** Every cell is 0 or 1 (the only values the shape catalog uses). */
  predicate Binary(m: Grid)
  {
    forall r, c :: 0 <= r < |m| && 0 <= c < |m[r]| ==> m[r][c] == 0 || m[r][c] == 1
  }

  /** Every row has at least as many entries as the matrix has rows, so the
      n-by-n square that rotation reads (n the row count) is defined. */
  predicate WellShaped(m: Grid)
  {
    forall r :: 0 <= r < |m| ==> |m[r]| >= |m|
  }

  /** In the n-by-n square at the top left of `m` (n the row count), every
      row and every column holds a nonzero cell. */
  predicate FillsBox(m: Grid)
    requires WellShaped(m)
  {
    (forall r :: 0 <= r < |m| ==> RowHasCell(m, r)) &&
    (forall c :: 0 <= c < |m| ==> ColumnHasCell(m, c))
  }

  /** Row `r` holds a nonzero cell among its first n entries (n the row count). */
  predicate RowHasCell(m: Grid, r: nat)
    requires WellShaped(m) && r < |m|
  {
    exists c :: 0 <= c < |m| && m[r][c] != 0
  }

  /** Column `c` (below the row count) holds a nonzero cell. */
  predicate ColumnHasCell(m: Grid, c: nat)
    requires WellShaped(m) && c < |m|
  {
    exists r :: 0 <= r < |m| && m[r][c] != 0
  }

  /** Piece cell (i, j) is occupied. */
  predicate Covers(m: Grid, i: int, j: int)
  {
    0 <= i < |m| && 0 <= j < |m[i]| && m[i][j] != 0
  }

  /** Grid cell (r, c) stops a piece cell: it is off the grid (the read gives
      `undefined`, which is `!== 0`) or it holds a nonzero value. */
  predicate Blocked(arena: Grid, r: int, c: int)
  {
    !(0 <= r < |arena| && 0 <= c < |arena[r]|) || arena[r][c] != 0
  }

  /** Some occupied cell of `m`, shifted by (ox, oy), is blocked. */
  predicate Collides(arena: Grid, m: Grid, ox: int, oy: int)
  {
    exists i, j :: 0 <= i < |m| && 0 <= j < |m[i]| && m[i][j] != 0 && Blocked(arena, oy + i, ox + j)
  }

  /** Every occupied cell of `m`, shifted by (ox, oy), lies on the grid. */
  predicate InBounds(arena: Grid, m: Grid, ox: int, oy: int)
  {
    forall i, j :: 0 <= i < |m| && 0 <= j < |m[i]| && m[i][j] != 0 ==>
      0 <= oy + i < |arena| && 0 <= ox + j < |arena[oy + i]|
  }

  /** The collision test: scans the piece row by row and stops at the first
      occupied cell that is blocked. */
  method Collide(arena: Grid, m: Grid, ox: int, oy: int) returns (hit: bool)
    ensures hit <==> Collides(arena, m, ox, oy)
  {
    for y := 0 to |m|
      invariant forall i, j :: 0 <= i < y && 0 <= j < |m[i]| && m[i][j] != 0 ==> !Blocked(arena, oy + i, ox + j)
    {
      for x := 0 to |m[y]|
        invariant forall j :: 0 <= j < x && m[y][j] != 0 ==> !Blocked(arena, oy + y, ox + j)
      {
        if m[y][x] != 0 && Blocked(arena, oy + y, ox + x) {
          return true;
        }
      }
    }
    return false;
  }

  /** The grid after locking `m` at (ox, oy): a covered cell takes the piece's
      own value, every other cell keeps its value. */
  function Merged(arena: Grid, m: Grid, ox: int, oy: int): (locked: Grid)
    ensures |locked| == |arena|
  {
    seq(|arena|, r requires 0 <= r < |arena| =>
      seq(|arena[r]|, c requires 0 <= c < |arena[r]| =>
        if Covers(m, r - oy, c - ox) then m[r - oy][c - ox] else arena[r][c]))
  }

  /** A placement that does not collide lies on the grid. */
  lemma FreeIsInBounds(arena: Grid, m: Grid, ox: int, oy: int)
    requires !Collides(arena, m, ox, oy)
    ensures InBounds(arena, m, ox, oy)
  {
    forall i, j | 0 <= i < |m| && 0 <= j < |m[i]| && m[i][j] != 0
      ensures 0 <= oy + i < |arena| && 0 <= ox + j < |arena[oy + i]|
    {
      assert !Blocked(arena, oy + i, ox + j);
    }
  }

  /** On a grid of empty cells, a placement collides exactly when some occupied
      cell falls off the grid. */
  lemma CollidesOnEmptyGrid(arena: Grid, m: Grid, ox: int, oy: int)
    requires forall r, c :: 0 <= r < |arena| && 0 <= c < |arena[r]| ==> arena[r][c] == 0
    ensures Collides(arena, m, ox, oy) <==> !InBounds(arena, m, ox, oy)
  {
    if !InBounds(arena, m, ox, oy) {
      var i, j :| 0 <= i < |m| && 0 <= j < |m[i]| && m[i][j] != 0 &&
        !(0 <= oy + i < |arena| && 0 <= ox + j < |arena[oy + i]|);
      assert Blocked(arena, oy + i, ox + j);
    } else {
      forall i, j | 0 <= i < |m| && 0 <= j < |m[i]| && m[i][j] != 0
        ensures !Blocked(arena, oy + i, ox + j)
      {
      }
    }
  }

  /** Locking a piece that lies on the grid writes the piece's value into every
      covered cell and leaves every other cell and the grid's shape as it was. */
  lemma MergedCells(arena: Grid, m: Grid, ox: int, oy: int)
    requires InBounds(arena, m, ox, oy)
    ensures |Merged(arena, m, ox, oy)| == |arena|
    ensures forall r :: 0 <= r < |arena| ==> |Merged(arena, m, ox, oy)[r]| == |arena[r]|
    ensures forall i, j :: Covers(m, i, j) ==> Merged(arena, m, ox, oy)[oy + i][ox + j] == m[i][j]
    ensures forall r, c :: 0 <= r < |arena| && 0 <= c < |arena[r]| && !Covers(m, r - oy, c - ox) ==>
      Merged(arena, m, ox, oy)[r][c] == arena[r][c]
  {
    var g := Merged(arena, m, ox, oy);
    forall i, j | Covers(m, i, j)
      ensures g[oy + i][ox + j] == m[i][j]
    {
      assert (oy + i) - oy == i && (ox + j) - ox == j;
    }
  }

  /** Once a piece with at least one occupied cell is locked, the same piece at
      the same place collides with what was locked. */
  lemma MergedBlocksSamePlace(arena: Grid, m: Grid, ox: int, oy: int, i: int, j: int)
    requires Covers(m, i, j)
    ensures Collides(Merged(arena, m, ox, oy), m, ox, oy)
  {
    var g := Merged(arena, m, ox, oy);
    if 0 <= oy + i < |g| && 0 <= ox + j < |g[oy + i]| {
      assert (oy + i) - oy == i && (ox + j) - ox == j;
      assert g[oy + i][ox + j] == m[i][j];
    }
    assert Blocked(g, oy + i, ox + j);
  }

  /** A merge keeps every cell 0 or 1 when the grid and the piece hold only 0 and 1. */
  lemma MergedBinary(arena: Grid, m: Grid, ox: int, oy: int)
    requires Binary(arena) && Binary(m)
    ensures Binary(Merged(arena, m, ox, oy))
  {
    var g := Merged(arena, m, ox, oy);
    forall r, c | 0 <= r < |g| && 0 <= c < |g[r]|
      ensures g[r][c] == 0 || g[r][c] == 1
    {
      if Covers(m, r - oy, c - ox) {
        assert g[r][c] == m[r - oy][c - ox];
      } else {
        assert g[r][c] == arena[r][c];
      }
    }
  }
}
