/**
 * The transform engine: the quarter turn of a piece matrix and the offsets of
 * the horizontal wall-kick search that follows a turn.
 *
 * The turn takes n to be the ROW count of its input and builds an n-by-n
 * matrix, so a piece that is wider than it is tall keeps only its first n
 * columns.
 */
module Rotation {
  import opened Board

  /** The quarter turn as a value: entry (i, j) of the result is entry
      (n-1-j, i) of `m`. */
  function Rotated(m: Grid): (r: Grid)
    requires WellShaped(m)
    ensures |r| == |m|
  {
    seq(|m|, i requires 0 <= i < |m| =>
      seq(|m|, j requires 0 <= j < |m| => m[|m| - 1 - j][i]))
  }

  /** Builds a fresh n-by-n zero matrix and writes `m[y][x]` into position
      (x, n-1-y) for every y, x below n; `m` itself is a value and stays as it was. */
  method Rotate(m: Grid) returns (rotated: Grid)
    requires WellShaped(m)
    ensures |rotated| == |m|
    ensures forall x :: 0 <= x < |m| ==> |rotated[x]| == |m|
    ensures rotated == Rotated(m)
  {
    var n := |m|;
    rotated := CreateMatrix(n, n);
    for y := 0 to n
      invariant |rotated| == n
      invariant forall i :: 0 <= i < n ==> |rotated[i]| == n
      invariant forall i, j :: 0 <= i < n && 0 <= j < n ==>
        rotated[i][j] == if n - 1 - j < y then m[n - 1 - j][i] else 0
    {
      for x := 0 to n
        invariant |rotated| == n
        invariant forall i :: 0 <= i < n ==> |rotated[i]| == n
        invariant forall i, j :: 0 <= i < n && 0 <= j < n ==>
          rotated[i][j] == if n - 1 - j < y || (n - 1 - j == y && i < x) then m[n - 1 - j][i] else 0
      {
        rotated := rotated[x := rotated[x][n - 1 - y := m[y][x]]];
      }
    }
    forall i | 0 <= i < n
      ensures rotated[i] == Rotated(m)[i]
    {
      assert forall j :: 0 <= j < n ==> rotated[i][j] == Rotated(m)[i][j];
    }
  }

  /** A turned matrix is square, and so can be turned again. */
  lemma RotatedIsSquare(m: Grid)
    requires WellShaped(m)
    ensures |Rotated(m)| == |m|
    ensures forall i :: 0 <= i < |m| ==> |Rotated(m)[i]| == |m|
    ensures WellShaped(Rotated(m))
  {
  }

  /** Two turns are a half turn: entry (i, j) of the result is entry
      (n-1-i, n-1-j) of `m`. */
  lemma HalfTurn(m: Grid)
    requires WellShaped(m)
    ensures WellShaped(Rotated(m))
    ensures var h := Rotated(Rotated(m));
      |h| == |m| &&
      forall i, j :: 0 <= i < |m| && 0 <= j < |m| ==> |h[i]| == |m| && h[i][j] == m[|m| - 1 - i][|m| - 1 - j]
  {
    RotatedIsSquare(m);
    var n := |m|;
    var r := Rotated(m);
    var h := Rotated(r);
    forall i, j | 0 <= i < n && 0 <= j < n
      ensures |h[i]| == n && h[i][j] == m[n - 1 - i][n - 1 - j]
    {
      assert h[i][j] == r[n - 1 - j][i];
      assert r[n - 1 - j][i] == m[n - 1 - i][n - 1 - j];
    }
  }

  /** Four turns of a square matrix give the matrix back. */
  lemma FourTurnsIdentity(m: Grid)
    requires forall r :: 0 <= r < |m| ==> |m[r]| == |m|
    ensures WellShaped(m) && WellShaped(Rotated(m))
    ensures WellShaped(Rotated(Rotated(m))) && WellShaped(Rotated(Rotated(Rotated(m))))
    ensures Rotated(Rotated(Rotated(Rotated(m)))) == m
  {
    var n := |m|;
    HalfTurn(m);
    var h := Rotated(Rotated(m));
    assert forall r :: 0 <= r < n ==> |h[r]| == n;
    HalfTurn(h);
    RotatedIsSquare(h);
    var f := Rotated(Rotated(h));
    forall i | 0 <= i < n
      ensures f[i] == m[i]
    {
      forall j | 0 <= j < n
        ensures f[i][j] == m[i][j]
      {
        assert f[i][j] == h[n - 1 - i][n - 1 - j];
      }
    }
  }

  /** A turn keeps a matrix made of 0 and 1 made of 0 and 1. */
  lemma RotatedBinary(m: Grid)
    requires WellShaped(m) && Binary(m)
    ensures Binary(Rotated(m))
  {
    var r := Rotated(m);
    forall i, j | 0 <= i < |r| && 0 <= j < |r[i]|
      ensures r[i][j] == 0 || r[i][j] == 1
    {
      assert r[i][j] == m[|m| - 1 - j][i];
    }
  }

  /** A turn keeps every row and column of the box occupied: row i of the
      result is column i of `m`, column j is row n-1-j. */
  lemma RotatedFillsBox(m: Grid)
    requires WellShaped(m) && FillsBox(m)
    ensures WellShaped(Rotated(m)) && FillsBox(Rotated(m))
  {
    var n := |m|;
    var r := Rotated(m);
    RotatedIsSquare(m);
    forall i | 0 <= i < n
      ensures RowHasCell(r, i)
    {
      assert ColumnHasCell(m, i);
      var k :| 0 <= k < n && m[k][i] != 0;
      assert r[i][n - 1 - k] == m[k][i];
    }
    forall j | 0 <= j < n
      ensures ColumnHasCell(r, j)
    {
      assert RowHasCell(m, n - 1 - j);
      var k :| 0 <= k < n && m[n - 1 - j][k] != 0;
      assert r[k][j] == m[n - 1 - j][k];
    }
  }

  /** If `m` lies on a grid whose rows all have one width, so does its half
      turn placed at the same offset: the half turn stays inside the n-by-n
      box, and every row and column of that box holds a cell of `m` that lies
      on the grid. */
  lemma HalfTurnInBounds(arena: Grid, m: Grid, ox: int, oy: int)
    requires WellShaped(m) && FillsBox(m)
    requires forall r :: 0 <= r < |arena| ==> |arena[r]| == |arena[0]|
    requires InBounds(arena, m, ox, oy)
    ensures WellShaped(Rotated(m))
    ensures InBounds(arena, Rotated(Rotated(m)), ox, oy)
  {
    var n := |m|;
    HalfTurn(m);
    var h := Rotated(Rotated(m));
    forall i, j | 0 <= i < |h| && 0 <= j < |h[i]| && h[i][j] != 0
      ensures 0 <= oy + i < |arena| && 0 <= ox + j < |arena[oy + i]|
    {
      assert RowHasCell(m, i);
      var c :| 0 <= c < n && m[i][c] != 0;
      assert 0 <= oy + i < |arena|;
      assert ColumnHasCell(m, j);
      var r :| 0 <= r < n && m[r][j] != 0;
      assert 0 <= oy + r < |arena| && 0 <= ox + j < |arena[oy + r]|;
    }
  }

  // The wall-kick search. After a turn that collides, the search shifts the
  // piece by offsets 1, -2, 3, -4, ..., so that it tries the columns
  // x, x+1, x-1, x+2, x-2, ... in that order.

  /** The j-th offset (from 0) of the search. */
  function Offset(j: nat): (o: int)
  {
    if j % 2 == 0 then j + 1 else -(j + 1)
  }

  /** The total shift after `j` offsets have been applied. */
  function Shift(j: nat): (d: int)
  {
    if j == 0 then 0 else Shift(j - 1) + Offset(j - 1)
  }

  /** How many positions the search tests before it gives up on a piece of
      width `w`: the first even number of shifts, at least 2, after which the
      next offset is positive and exceeds `w`. */
  function Tries(w: nat): (t: nat)
    ensures t >= 2 && t % 2 == 0 && t >= w
    ensures t == 2 || t - 2 < w
    ensures w >= 1 ==> t <= w + 1
  {
    if w <= 2 then 2 else if w % 2 == 0 then w else w + 1
  }

  /** The shifts alternate right and left of the start, one column further
      each time: +1, -1, +2, -2, ... */
  lemma {:induction false} ShiftClosedForm(j: nat)
    ensures Shift(j) == if j % 2 == 1 then (j + 1) / 2 else -(j / 2)
  {
    if j > 0 {
      ShiftClosedForm(j - 1);
    }
  }

  /** The first 2k+1 shifts of the search visit every column within distance
      k of the start, each exactly once. */
  lemma ShiftsCover(k: nat, d: int)
    requires -(k as int) <= d <= k
    ensures exists j :: 0 <= j < 2 * k + 1 && Shift(j) == d
    ensures forall a, b :: 0 <= a < b < 2 * k + 1 ==> Shift(a) != Shift(b)
  {
    var j := if d > 0 then 2 * d - 1 else -2 * d;
    ShiftClosedForm(j);
    assert 0 <= j < 2 * k + 1 && Shift(j) == d;
    forall a, b | 0 <= a < b < 2 * k + 1
      ensures Shift(a) != Shift(b)
    {
      ShiftClosedForm(a);
      ShiftClosedForm(b);
    }
  }

  /** One step of the search: the next offset is the current one negated and
      one further from 0, and the search gives up exactly after `Tries(w)`
      steps. */
  lemma KickStep(w: nat, j: nat)
    requires j < Tries(w)
    ensures Offset(j + 1) == -(Offset(j) + (if Offset(j) > 0 then 1 else -1))
    ensures Offset(j + 1) > w <==> j + 1 == Tries(w)
  {
  }

  /** Column `x` is the first of the first `t` columns of the search from
      `x0` where `m` does not collide. */
  predicate FirstFree(arena: Grid, m: Grid, x0: int, y: int, t: nat, x: int)
  {
    exists k :: 0 <= k < t && x == x0 + Shift(k) && !Collides(arena, m, x, y) &&
      forall j :: 0 <= j < k ==> Collides(arena, m, x0 + Shift(j), y)
  }

  /** `m` collides at each of the first `t` columns of the search from `x0`. */
  predicate AllBlocked(arena: Grid, m: Grid, x0: int, y: int, t: nat)
  {
    forall j :: 0 <= j < t ==> Collides(arena, m, x0 + Shift(j), y)
  }

  /** A collision at the next column of the search extends `AllBlocked` by one. */
  lemma AllBlockedStep(arena: Grid, m: Grid, x0: int, y: int, j: nat)
    requires AllBlocked(arena, m, x0, y, j) && Collides(arena, m, x0 + Shift(j), y)
    ensures AllBlocked(arena, m, x0, y, j + 1)
  {
  }

  /** The wall-kick search for piece `m` in row `y`, starting at column `x0`:
      while the piece collides, shift it by the next offset; give up as soon as
      the next offset is positive and exceeds the width of the piece's first
      row. On success the result is the first free column of the search order
      and every column tried before it collides; on giving up, every one of the
      `Tries` columns tried collides and the column is x0 again. */
  method KickSearch(arena: Grid, m: Grid, x0: int, y: int) returns (found: bool, x: int)
    requires |m| >= 1
    ensures found ==> FirstFree(arena, m, x0, y, Tries(|m[0]|), x)
    ensures !found ==> x == x0 && AllBlocked(arena, m, x0, y, Tries(|m[0]|))
  {
    var w := |m[0]|;
    x := x0;
    var offset := 1;
    ghost var j: nat := 0;
    var hit := Collide(arena, m, x, y);
    while hit
      invariant j < Tries(w) && x == x0 + Shift(j) && offset == Offset(j)
      invariant hit == Collides(arena, m, x, y)
      invariant AllBlocked(arena, m, x0, y, j)
      decreases Tries(w) - j
    {
      KickStep(w, j);
      AllBlockedStep(arena, m, x0, y, j);
      x := x + offset;
      offset := -(offset + (if offset > 0 then 1 else -1));
      j := j + 1;
      if offset > w {
        return false, x0;
      }
      hit := Collide(arena, m, x, y);
    }
    return true, x;
  }
}
