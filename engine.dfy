/**
 * The game-state engine: the 12-by-20 playing field, the falling piece with
 * its position, the score and the drop timer, and the commands that change
 * them (move, drop, rotate, spawn) together with the lock-and-sweep step and
 * the timer step of the game loop.
 *
 * The random choice of the next piece is a parameter `next`, an index into
 * the catalog (0 to 6).
 */
module Engine {
  import opened Board
  import opened Rotation
  import opened Shapes
  import opened LineClear

  const Width := 12
  const Height := 20
  /** Time that passes between two automatic drops. */
  const DropInterval := 1000

  /** A grid of the playing field's size whose cells are all 0 or 1. */
  predicate IsArena(g: Grid)
  {
    |g| == Height && Uniform(g, Width) && Binary(g)
  }

  /** A piece matrix the engine can hold: at least one row, turnable, cells 0
      or 1, and every row and column of its turning box occupied. */
  predicate IsPiece(m: Grid)
  {
    |m| >= 1 && WellShaped(m) && Binary(m) && FillsBox(m)
  }

  /** The spawn column: half the field's width less half the piece's width,
      each rounded down. */
  function SpawnX(arenaWidth: nat, pieceWidth: nat): (x: int)
  {
    arenaWidth / 2 - pieceWidth / 2
  }

  /** A spawned catalog piece lies on any grid of the field's size. */
  lemma SpawnInBounds(g: Grid, next: nat)
    requires |g| == Height && Uniform(g, Width) && next < |Catalog|
    ensures |Catalog[next]| > 0 && InBounds(g, Catalog[next], SpawnX(Width, |Catalog[next][0]|), 0)
  {
    CatalogShape(next);
  }

  /** A spawned catalog piece never collides with an empty field. */
  lemma SpawnFreeOnEmpty(next: nat)
    requires next < |Catalog|
    ensures |Catalog[next]| > 0 && !Collides(ZeroRows(Height, Width), Catalog[next], SpawnX(Width, |Catalog[next][0]|), 0)
  {
    var g := ZeroRows(Height, Width);
    SpawnInBounds(g, next);
    CollidesOnEmptyGrid(g, Catalog[next], SpawnX(Width, |Catalog[next][0]|), 0);
  }

  /** No row of the grid is full. */
  predicate NoFullRow(g: Grid)
  {
    forall r :: 0 <= r < |g| ==> !IsFull(g[r])
  }

  /** The empty field has the field's size, holds only 0 and has no full row. */
  lemma EmptyArena()
    ensures IsArena(ZeroRows(Height, Width)) && NoFullRow(ZeroRows(Height, Width))
  {
    var g := ZeroRows(Height, Width);
    forall r | 0 <= r < |g|
      ensures !IsFull(g[r])
    {
      assert g[r][0] == 0;
    }
  }

  /** The part of the game that the commands change: the field, the falling
      piece's matrix and the column and row of its top-left corner, and the
      score. */
  datatype State = State(arena: Grid, matrix: Grid, x: int, y: int, score: int)

  /** The states the game keeps between commands: the field has its size,
      holds 0 and 1 and no full row; the score is a non-negative multiple of
      10; the piece is one the engine can hold and lies on the field. */
  predicate Playable(st: State)
  {
    IsArena(st.arena) && NoFullRow(st.arena) && st.score >= 0 && st.score % 10 == 0 &&
    IsPiece(st.matrix) && InBounds(st.arena, st.matrix, st.x, st.y)
  }

  /** Spawning catalog piece `next` on field `before` with score `score`: the
      piece sits in row 0, centred; if it collides there, the game is over and
      starts again on an empty field with score 0. */
  function Spawn(next: nat, before: Grid, score: int): (spawned: State)
    requires next < |Catalog|
    ensures spawned.matrix == Catalog[next] && spawned.y == 0
  {
    CatalogNonEmpty(next);
    var piece := Catalog[next];
    var x := SpawnX(Width, |piece[0]|);
    if Collides(before, piece, x, 0)
    then State(ZeroRows(Height, Width), piece, x, 0, 0)
    else State(before, piece, x, 0, score)
  }

  /** Moving the piece `dir` columns, unless it would then collide. */
  function Move(st: State, dir: int): (moved: State)
    ensures moved.arena == st.arena && moved.matrix == st.matrix
    ensures moved.y == st.y && moved.score == st.score
    ensures moved.x == st.x || moved.x == st.x + dir
  {
    if Collides(st.arena, st.matrix, st.x + dir, st.y) then st else st.(x := st.x + dir)
  }

  /** One drop: the piece moves one row down if it does not collide there;
      otherwise it is locked where it is, the field is swept, the score gains
      10 points per cleared row and piece `next` is spawned. */
  function Drop(next: nat, st: State): (dropped: State)
    requires next < |Catalog|
  {
    if !Collides(st.arena, st.matrix, st.x, st.y + 1) then st.(y := st.y + 1)
    else
      var locked := Merged(st.arena, st.matrix, st.x, st.y);
      Spawn(next, Swept(locked, Width), st.score + 10 * FullCount(locked))
  }

  /** Moving back undoes a move that succeeded from a free position. */
  lemma MoveRoundTrip(st: State, dir: int)
    requires !Collides(st.arena, st.matrix, st.x, st.y)
    requires !Collides(st.arena, st.matrix, st.x + dir, st.y)
    ensures Move(st, dir).x == st.x + dir
    ensures Move(Move(st, dir), -dir) == st
  {
  }

  /** A drop whose piece collides one row further down locks the piece in its
      current row and sweeps the field; piece `next` then starts in row 0 at
      the centred column. If it is free there, the field is the swept field
      and the score has gained 10 for each full row of the locked field;
      otherwise the game starts again on an empty field with score 0. */
  lemma DropLocks(next: nat, st: State)
    requires next < |Catalog| && Collides(st.arena, st.matrix, st.x, st.y + 1)
    ensures var locked := Merged(st.arena, st.matrix, st.x, st.y);
      var piece, d := Catalog[next], Drop(next, st);
      |piece| >= 1 && d.matrix == piece && d.y == 0 && d.x == SpawnX(Width, |piece[0]|) &&
      (!Collides(Swept(locked, Width), piece, d.x, 0) ==>
        d.arena == Swept(locked, Width) && d.score == st.score + 10 * FullCount(locked)) &&
      (Collides(Swept(locked, Width), piece, d.x, 0) ==>
        d.arena == ZeroRows(Height, Width) && d.score == 0)
  {
    CatalogNonEmpty(next);
  }

  /** A spawn on a field of the right size without full rows gives a playable
      state, whether or not the game is over. */
  lemma SpawnPlayable(next: nat, before: Grid, score: int)
    requires next < |Catalog| && IsArena(before) && NoFullRow(before)
    requires score >= 0 && score % 10 == 0
    ensures Playable(Spawn(next, before, score))
  {
    CatalogShape(next);
    EmptyArena();
    SpawnInBounds(before, next);
    SpawnInBounds(ZeroRows(Height, Width), next);
  }

  /** Moving keeps a state playable. */
  lemma MovePlayable(st: State, dir: int)
    requires Playable(st)
    ensures Playable(Move(st, dir))
  {
    if !Collides(st.arena, st.matrix, st.x + dir, st.y) {
      FreeIsInBounds(st.arena, st.matrix, st.x + dir, st.y);
    }
  }

  /** Locking a piece that lies on the field keeps the field's size and its
      values 0 and 1. */
  lemma LockedArena(arena: Grid, m: Grid, x: int, y: int)
    requires IsArena(arena) && Binary(m) && InBounds(arena, m, x, y)
    ensures IsArena(Merged(arena, m, x, y))
  {
    MergedCells(arena, m, x, y);
    MergedBinary(arena, m, x, y);
  }

  /** Sweeping a field keeps its size and its values 0 and 1 and leaves no
      full row. */
  lemma SweptArena(g: Grid)
    requires IsArena(g)
    ensures IsArena(Swept(g, Width)) && NoFullRow(Swept(g, Width))
  {
    SweptShape(g, Width);
    SweptBinary(g, Width);
  }

  /** Dropping keeps a state playable: a piece that falls stays on the field;
      a piece that locks leaves a field of the same size and values, the sweep
      leaves no full row, and the score stays a multiple of 10. */
  lemma DropPlayable(next: nat, st: State)
    requires next < |Catalog| && Playable(st)
    ensures Playable(Drop(next, st))
  {
    if Collides(st.arena, st.matrix, st.x, st.y + 1) {
      var locked := Merged(st.arena, st.matrix, st.x, st.y);
      LockedArena(st.arena, st.matrix, st.x, st.y);
      SweptArena(locked);
      var k := FullCount(locked);
      assert (st.score + 10 * k) % 10 == 0;
      SpawnPlayable(next, Swept(locked, Width), st.score + 10 * k);
    } else {
      FreeIsInBounds(st.arena, st.matrix, st.x, st.y + 1);
    }
  }

  /** The outcome of turning piece `m0` at column `x0` in row `y` of `arena`
      into piece `m` at column `x`: either the turned piece sits at the first
      column of the search x0, x0+1, x0-1, x0+2, ... where it does not collide,
      or all `Tries` positions collide and the piece is turned a second time
      and put back at x0. */
  ghost predicate KickOutcome(arena: Grid, m0: Grid, x0: int, y: int, m: Grid, x: int)
    requires WellShaped(m0)
  {
    RotatedIsSquare(m0);
    var r := Rotated(m0);
    var t := Tries(|m0|);
    (m == r && FirstFree(arena, r, x0, y, t, x)) ||
    (m == Rotated(r) && x == x0 && AllBlocked(arena, r, x0, y, t))
  }

  /** Turning keeps a piece one the engine can hold, and keeps it on the
      field: at the column the search found because it does not collide there,
      and after the half turn because the half turn stays in the box of the
      piece it came from. */
  lemma KickKeepsPiece(arena: Grid, m0: Grid, x0: int, y: int, m: Grid, x: int)
    requires IsArena(arena) && IsPiece(m0) && InBounds(arena, m0, x0, y)
    requires KickOutcome(arena, m0, x0, y, m, x)
    ensures IsPiece(m) && InBounds(arena, m, x, y)
  {
    RotatedIsSquare(m0);
    RotatedBinary(m0);
    RotatedFillsBox(m0);
    var r := Rotated(m0);
    if m == r && FirstFree(arena, r, x0, y, Tries(|m0|), x) {
      FreeIsInBounds(arena, r, x, y);
    } else {
      HalfTurnInBounds(arena, m0, x0, y);
      RotatedBinary(r);
      RotatedFillsBox(r);
    }
  }

  /** The state of the line-clear loop on field `g0`: `i` rows of `g0` are
      still to be examined, `k` full rows have been taken out so far, the
      field is `k` empty rows, then the unexamined rows, then the examined rows
      that were not full, and `y` is the index of the next row to examine. */
  ghost predicate Sweeping(g0: Grid, g: Grid, y: int, i: nat, k: nat)
  {
    i <= |g0| && k == FullCount(g0[i..]) &&
    g == ZeroRows(k, Width) + g0[..i] + NonFull(g0[i..]) &&
    -1 <= y && (i > 0 ==> y == k + i - 1) && (i == 0 ==> y < k)
  }

  /** One turn of the line-clear loop at row index `y`: a full row is taken
      out, emptied and put back on top, the score gains the points for one
      row and the same index is examined again; otherwise the index moves up
      one row. */
  method SweepRow(ghost g0: Grid, g: Grid, s: int, y: int, ghost i: nat, ghost k: nat)
    returns (g': Grid, s': int, y': int, ghost i': nat, ghost k': nat)
    requires Uniform(g0, Width) && Sweeping(g0, g, y, i, k) && y >= 0
    ensures Sweeping(g0, g', y', i', k')
    ensures (i' + 1 == i && k' == k + 1 && y' == y && s' == s + 10) ||
            (k' == k && y' == y - 1 && s' == s && (i' + 1 == i || (i == 0 && i' == 0)))
    ensures y' + i' < y + i
  {
    assert 0 <= y < |g| && |g[y]| == Width && (i > 0 ==> g[y] == g0[i - 1]) && (i == 0 ==> !IsFull(g[y])) by {
      SweepStateRow(g0, i, k, Width, y);
    }
    var row := g[y];
    var full := ScanRow(row);
    if full {
      assert i > 0;
      SweepStepFull(g0, i, k, Width, g, y);
      g' := [Zeros(|row|)] + g[..y] + g[y + 1..];
      s', y', i', k' := s + 10, y, i - 1, k + 1;
    } else {
      g', s', y', i', k' := g, s, y - 1, i, k;
      if i > 0 {
        SweepStepKeep(g0, i, k, Width, g);
        i' := i - 1;
      }
    }
  }

  /** The line-clear loop on field `g0` with score `s0`: examines the rows
      from the bottom (see `SweepRow`). The result is the swept field and the
      score plus the points of every full row. */
  method SweepField(g0: Grid, s0: int) returns (g: Grid, s: int)
    requires Uniform(g0, Width)
    ensures g == Swept(g0, Width)
    ensures s == s0 + 10 * FullCount(g0)
  {
    g, s := g0, s0;
    ghost var i: nat := |g0|;
    ghost var k: nat := 0;
    var y := |g| - 1;
    assert g0[..i] == g0 && g0[i..] == [];
    while y >= 0
      invariant Sweeping(g0, g, y, i, k)
      invariant s == s0 + 10 * k
      decreases y + 1 + i
    {
      g, s, y, i, k := SweepRow(g0, g, s, y, i, k);
    }
    SweepDone(g0, i, k, Width);
  }

  /** The merge loop on field `arena`: every occupied cell of `m` writes its
      own value into the field cell under it, offset by (ox, oy). */
  method MergeField(arena: Grid, m: Grid, ox: int, oy: int) returns (g: Grid)
    requires InBounds(arena, m, ox, oy)
    ensures g == Merged(arena, m, ox, oy)
  {
    g := arena;
    for y := 0 to |m|
      invariant |g| == |arena| && forall r :: 0 <= r < |g| ==> |g[r]| == |arena[r]|
      invariant forall r, c :: 0 <= r < |g| && 0 <= c < |g[r]| ==>
        g[r][c] == if Covers(m, r - oy, c - ox) && r - oy < y then m[r - oy][c - ox] else arena[r][c]
    {
      for x := 0 to |m[y]|
        invariant |g| == |arena| && forall r :: 0 <= r < |g| ==> |g[r]| == |arena[r]|
        invariant forall r, c :: 0 <= r < |g| && 0 <= c < |g[r]| ==>
          g[r][c] == if Covers(m, r - oy, c - ox) && (r - oy < y || (r - oy == y && c - ox < x))
                     then m[r - oy][c - ox] else arena[r][c]
      {
        if m[y][x] != 0 {
          g := g[y + oy := g[y + oy][x + ox := m[y][x]]];
        }
      }
    }
    forall r | 0 <= r < |g|
      ensures g[r] == Merged(arena, m, ox, oy)[r]
    {
      assert forall c :: 0 <= c < |g[r]| ==> g[r][c] == Merged(arena, m, ox, oy)[r][c];
    }
  }

  /** Sets every cell of the field to 0, row by row. */
  method ClearField(g0: Grid) returns (g: Grid)
    requires |g0| == Height && Uniform(g0, Width)
    ensures g == ZeroRows(Height, Width)
  {
    g := g0;
    for r := 0 to |g|
      invariant |g| == Height && Uniform(g, Width)
      invariant forall q :: 0 <= q < r ==> g[q] == Zeros(Width)
    {
      g := g[r := Zeros(|g[r]|)];
    }
  }

  class Game {
    var arena: Grid
    /** The falling piece's matrix and the position of its top-left corner. */
    var matrix: Grid
    var posX: int
    var posY: int
    var score: int
    /** Time since the last drop, and the time stamp of the last frame. */
    var dropCounter: int
    var lastTime: int

    /** The fields the commands change, as one value. */
    ghost function Snapshot(): State
      reads this`arena, this`matrix, this`posX, this`posY, this`score
    {
      State(arena, matrix, posX, posY, score)
    }

    /** The field has its fixed size and holds 0 and 1; the score is a
        non-negative multiple of 10. */
    ghost predicate ArenaValid()
      reads this`arena, this`score
    {
      IsArena(arena) && score >= 0 && score % 10 == 0
    }

    /** The state between commands is playable. */
    ghost predicate Valid()
      reads this`arena, this`matrix, this`posX, this`posY, this`score
    {
      Playable(Snapshot())
    }

    /** A new game: an empty field, score 0, and the first piece spawned. */
    constructor (first: nat)
      requires first < |Catalog|
      ensures Valid()
      ensures Snapshot() == Spawn(first, ZeroRows(Height, Width), 0)
      ensures arena == ZeroRows(Height, Width) && score == 0
      ensures dropCounter == 0 && lastTime == 0
    {
      var field := CreateMatrix(Width, Height);
      arena := field;
      matrix := [];
      posX, posY := 0, 0;
      score := 0;
      dropCounter, lastTime := 0, 0;
      new;
      EmptyArena();
      PlayerReset(first);
      SpawnFreeOnEmpty(first);
      SpawnPlayable(first, ZeroRows(Height, Width), 0);
    }

    /** Locks the piece into the field: every occupied cell writes the piece's
        own value into the field cell under it. */
    method Merge()
      requires ArenaValid() && Binary(matrix) && InBounds(arena, matrix, posX, posY)
      modifies this`arena
      ensures ArenaValid()
      ensures arena == Merged(old(arena), matrix, posX, posY)
    {
      var g := MergeField(arena, matrix, posX, posY);
      LockedArena(arena, matrix, posX, posY);
      arena := g;
    }

    /** Clears the full rows of the field and adds their points to the score
        (see `SweepField`). */
    method ArenaSweep()
      requires ArenaValid()
      modifies this`arena, this`score
      ensures ArenaValid() && NoFullRow(arena)
      ensures arena == Swept(old(arena), Width)
      ensures score == old(score) + 10 * FullCount(old(arena))
    {
      var g, s := SweepField(arena, score);
      SweptShape(arena, Width);
      SweptBinary(arena, Width);
      arena, score := g, s;
    }

    /** Spawns catalog piece `next` at the top, centred; if it collides there,
        every field cell is set to 0 and the score to 0. */
    method PlayerReset(next: nat)
      requires next < |Catalog| && IsArena(arena)
      modifies this`arena, this`score, this`matrix, this`posX, this`posY
      ensures Snapshot() == Spawn(next, old(arena), old(score))
    {
      var pieces := Letters;
      CreatePieceOfLetter(next);
      CatalogNonEmpty(next);
      var piece := CreatePiece(pieces[next]).value;
      var field := arena;
      var x := |field[0]| / 2 - |piece[0]| / 2;
      assert piece == Catalog[next] && x == SpawnX(Width, |piece[0]|);
      var hit := Collide(field, piece, x, 0);
      if hit {
        field := ClearField(field);
        score := 0;
      }
      arena, matrix, posX, posY := field, piece, x, 0;
    }

    /** Shifts the piece `dir` columns and takes the shift back if the piece
        then collides. */
    method PlayerMove(dir: int)
      requires Valid()
      modifies this`posX
      ensures Valid()
      ensures Snapshot() == Move(old(Snapshot()), dir)
    {
      ghost var st := Snapshot();
      posX := posX + dir;
      var hit := Collide(arena, matrix, posX, posY);
      if hit {
        posX := posX - dir;
      }
      MovePlayable(st, dir);
    }

    /** Moves the piece one row down; if it then collides, moves it back, locks
        it, sweeps and spawns piece `next`. Either way the drop timer restarts. */
    method PlayerDrop(next: nat)
      requires Valid() && next < |Catalog|
      modifies this`arena, this`score, this`matrix, this`posX, this`posY, this`dropCounter
      ensures Valid()
      ensures Snapshot() == Drop(next, old(Snapshot()))
      ensures dropCounter == 0
    {
      ghost var st := Snapshot();
      posY := posY + 1;
      var hit := Collide(arena, matrix, posX, posY);
      if hit {
        posY := posY - 1;
        assert Snapshot() == st;
        LockPiece(next, st);
      } else {
        assert Snapshot() == Drop(next, st);
      }
      dropCounter := 0;
      DropPlayable(next, st);
    }

    /** The locking half of a drop from state `st`: locks the piece where it
        is, sweeps the field and spawns piece `next`. */
    method LockPiece(next: nat, ghost st: State)
      requires next < |Catalog| && Snapshot() == st && Playable(st)
      requires Collides(st.arena, st.matrix, st.x, st.y + 1)
      modifies this`arena, this`score, this`matrix, this`posX, this`posY
      ensures Snapshot() == Drop(next, st)
    {
      Merge();
      ArenaSweep();
      PlayerReset(next);
    }

    /** Turns the piece, then runs the wall-kick search for the turned piece;
        when the search gives up, turns the piece once more and puts it back
        at its column. */
    method PlayerRotate()
      requires Valid()
      modifies this`matrix, this`posX
      ensures Valid()
      ensures KickOutcome(arena, old(matrix), old(posX), posY, matrix, posX)
    {
      var pos, y := posX, posY;
      var m0 := matrix;
      var m := Rotate(m0);
      var found, x := KickSearch(arena, m, pos, y);
      assert |m[0]| == |m0|;
      if !found {
        m := Rotate(m);
        x := pos;
      }
      assert KickOutcome(arena, m0, pos, y, m, x);
      KickKeepsPiece(arena, m0, pos, y, m, x);
      matrix, posX := m, x;
    }

    /** One frame of the game loop at time stamp `time`: adds the time since
        the last frame to the drop timer and drops the piece once the timer
        exceeds the drop interval. */
    method Update(time: int, next: nat)
      requires Valid() && next < |Catalog|
      modifies this
      ensures Valid() && lastTime == time
      ensures var counter := old(dropCounter) + (time - old(lastTime));
        if counter > DropInterval then
          dropCounter == 0 && Snapshot() == Drop(next, old(Snapshot()))
        else
          dropCounter == counter && Snapshot() == old(Snapshot())
    {
      var deltaTime := time - lastTime;
      lastTime := time;
      dropCounter := dropCounter + deltaTime;
      if dropCounter > DropInterval {
        PlayerDrop(next);
      }
    }
  }
}
