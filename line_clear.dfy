/**
 * The line-clear engine, as values: which rows are full, how many there are,
 * and the grid a sweep leaves behind. A sweep removes every full row, keeps
 * the other rows in their order, and puts one empty row on top for each row
 * it removed.
 */
module LineClear {
  import opened Board

  /** No cell of the row is 0. (A row of width 0 is full.) */
  predicate IsFull(row: seq<int>)
  {
    forall c :: 0 <= c < |row| ==> row[c] != 0
  }

  /** Scans the row from the left and stops at the first 0. */
  method ScanRow(row: seq<int>) returns (full: bool)
    ensures full <==> IsFull(row)
  {
    for x := 0 to |row|
      invariant forall c :: 0 <= c < x ==> row[c] != 0
    {
      if row[x] == 0 {
        return false;
      }
    }
    return true;
  }

  /** The number of full rows. */
  function FullCount(g: Grid): (k: nat)
    ensures k <= |g|
  {
    if g == [] then 0 else (if IsFull(g[0]) then 1 else 0) + FullCount(g[1..])
  }

  /** The rows that are not full, in their original order. */
  function NonFull(g: Grid): (kept: Grid)
    ensures |kept| == |g| - FullCount(g)
  {
    if g == [] then [] else (if IsFull(g[0]) then [] else [g[0]]) + NonFull(g[1..])
  }

  /** The kept rows are rows of `g`, and none of them is full. */
  lemma {:induction false} NonFullRows(g: Grid)
    ensures forall r :: 0 <= r < |NonFull(g)| ==> !IsFull(NonFull(g)[r]) && NonFull(g)[r] in g
  {
    if g != [] {
      NonFullRows(g[1..]);
      var head := if IsFull(g[0]) then [] else [g[0]];
      var kept := NonFull(g);
      assert kept == head + NonFull(g[1..]);
      forall r | 0 <= r < |kept|
        ensures !IsFull(kept[r]) && kept[r] in g
      {
        if r < |head| {
          assert kept[r] == g[0];
        } else {
          assert kept[r] == NonFull(g[1..])[r - |head|];
          assert kept[r] in g[1..];
        }
      }
    }
  }

  /** The grid after a sweep: one empty `w`-wide row on top per full row, then
      the rows that were not full. */
  function Swept(g: Grid, w: nat): (swept: Grid)
    ensures |swept| == |g|
  {
    ZeroRows(FullCount(g), w) + NonFull(g)
  }

  /** Every row has width `w`. */
  predicate Uniform(g: Grid, w: nat)
  {
    forall r :: 0 <= r < |g| ==> |g[r]| == w
  }

  /** A sweep keeps the number of rows and the width of every row, and leaves
      no row full when the rows are not empty. */
  lemma SweptShape(g: Grid, w: nat)
    requires Uniform(g, w)
    ensures |Swept(g, w)| == |g|
    ensures Uniform(Swept(g, w), w)
    ensures w > 0 ==> forall r :: 0 <= r < |g| ==> !IsFull(Swept(g, w)[r])
  {
    var s := Swept(g, w);
    var k := FullCount(g);
    NonFullRows(g);
    forall r | 0 <= r < |s|
      ensures |s[r]| == w && (w > 0 ==> !IsFull(s[r]))
    {
      if r < k {
        assert s[r] == Zeros(w);
        assert w > 0 ==> s[r][0] == 0;
      } else {
        assert s[r] == NonFull(g)[r - k];
      }
    }
  }

  /** A sweep keeps a grid of 0 and 1 a grid of 0 and 1. */
  lemma SweptBinary(g: Grid, w: nat)
    requires Binary(g)
    ensures Binary(Swept(g, w))
  {
    var s := Swept(g, w);
    var k := FullCount(g);
    NonFullRows(g);
    forall r, c | 0 <= r < |s| && 0 <= c < |s[r]|
      ensures s[r][c] == 0 || s[r][c] == 1
    {
      if r >= k {
        assert s[r] == NonFull(g)[r - k];
        var q :| 0 <= q < |g| && g[q] == s[r];
        assert g[q][c] == s[r][c];
      }
    }
  }

  /** With no full row, there is nothing to remove. */
  lemma {:induction false} NothingFull(g: Grid)
    requires forall r :: 0 <= r < |g| ==> !IsFull(g[r])
    ensures FullCount(g) == 0 && NonFull(g) == g
  {
    if g != [] {
      NothingFull(g[1..]);
      assert [g[0]] + g[1..] == g;
    }
  }

  /** Counting and filtering rows distribute over putting two grids one above
      the other. */
  lemma {:induction false} SplitRows(a: Grid, b: Grid)
    ensures FullCount(a + b) == FullCount(a) + FullCount(b)
    ensures NonFull(a + b) == NonFull(a) + NonFull(b)
  {
    if a == [] {
      assert a + b == b;
    } else {
      var ab := a + b;
      assert ab != [] && ab[0] == a[0] && ab[1..] == a[1..] + b;
      SplitRows(a[1..], b);
      var head := if IsFull(a[0]) then [] else [a[0]];
      assert NonFull(ab) == head + NonFull(a[1..] + b);
      assert NonFull(a) == head + NonFull(a[1..]);
      assert head + (NonFull(a[1..]) + NonFull(b)) == (head + NonFull(a[1..])) + NonFull(b);
    }
  }

  /** Sweeping twice is sweeping once, and the second sweep clears nothing. */
  lemma SweepIdempotent(g: Grid, w: nat)
    requires w > 0 && Uniform(g, w)
    ensures FullCount(Swept(g, w)) == 0
    ensures Swept(Swept(g, w), w) == Swept(g, w)
  {
    SweptShape(g, w);
    NothingFull(Swept(g, w));
    assert ZeroRows(0, w) == [];
  }

  /** With exactly one full row, between the rows `above` and the rows
      `below`, the sweep removes that row, moves the rows above it down by one,
      keeps the rows below it and puts one empty row on top; one row is
      counted. */
  lemma SweepOneFullRow(above: Grid, row: seq<int>, below: Grid, w: nat)
    requires IsFull(row)
    requires forall q :: 0 <= q < |above| ==> !IsFull(above[q])
    requires forall q :: 0 <= q < |below| ==> !IsFull(below[q])
    ensures FullCount(above + [row] + below) == 1
    ensures Swept(above + [row] + below, w) == [Zeros(w)] + above + below
  {
    FullBetween(above, row, below);
    SweptOneRow(above + [row] + below, w, above, below);
  }

  /** A sweep that counts one full row and keeps the rows `above` and then
      the rows `below` gives one empty row on top of them. */
  lemma SweptOneRow(g: Grid, w: nat, above: Grid, below: Grid)
    requires FullCount(g) == 1 && NonFull(g) == above + below
    ensures Swept(g, w) == [Zeros(w)] + above + below
  {
    var top := ZeroRows(1, w);
    assert Swept(g, w) == top + (above + below);
    assert top == [Zeros(w)];
    assert top + (above + below) == top + above + below;
  }

  /** One full row between two grids without full rows is counted once, and
      the two grids are kept. */
  lemma FullBetween(above: Grid, row: seq<int>, below: Grid)
    requires IsFull(row)
    requires forall q :: 0 <= q < |above| ==> !IsFull(above[q])
    requires forall q :: 0 <= q < |below| ==> !IsFull(below[q])
    ensures FullCount(above + [row] + below) == 1
    ensures NonFull(above + [row] + below) == above + below
  {
    var rest := [row] + below;
    assert above + [row] + below == above + rest;
    NothingFull(above);
    NothingFull(below);
    FullOnTop(row, below);
    SplitRows(above, rest);
  }

  /** Putting a full row on top adds one to the count and nothing to the kept rows. */
  lemma FullOnTop(row: seq<int>, below: Grid)
    requires IsFull(row)
    ensures FullCount([row] + below) == 1 + FullCount(below)
    ensures NonFull([row] + below) == NonFull(below)
  {
    var g := [row] + below;
    assert g[0] == row && g[1..] == below;
  }

  // The sweep loop examines the rows of the original grid `g` from the
  // bottom. When `i` rows are still to be examined and `k` full rows have been
  // removed so far, the grid is ZeroRows(k, w) + g[..i] + NonFull(g[i..]).

  /** Removing the full row g[i-1], which sits at index y = k+i-1 of the
      sweep state `s`, and putting an empty row on top gives the state with
      one row fewer to examine. */
  lemma SweepStepFull(g: Grid, i: nat, k: nat, w: nat, s: Grid, y: int)
    requires 0 < i <= |g| && IsFull(g[i - 1])
    requires s == ZeroRows(k, w) + g[..i] + NonFull(g[i..]) && y == k + i - 1
    ensures FullCount(g[i - 1..]) == FullCount(g[i..]) + 1
    ensures 0 <= y < |s| && [Zeros(w)] + s[..y] + s[y + 1..] == ZeroRows(k + 1, w) + g[..i - 1] + NonFull(g[i - 1..])
  {
    assert g[i - 1..][0] == g[i - 1] && g[i - 1..][1..] == g[i..];
    assert s[..y] == ZeroRows(k, w) + g[..i - 1];
    assert s[y + 1..] == NonFull(g[i..]);
    assert [Zeros(w)] + ZeroRows(k, w) == ZeroRows(k + 1, w);
  }

  /** Passing over the row g[i-1] when it is not full gives the state with one
      row fewer to examine. */
  lemma SweepStepKeep(g: Grid, i: nat, k: nat, w: nat, s: Grid)
    requires 0 < i <= |g| && !IsFull(g[i - 1])
    requires s == ZeroRows(k, w) + g[..i] + NonFull(g[i..])
    ensures FullCount(g[i - 1..]) == FullCount(g[i..])
    ensures s == ZeroRows(k, w) + g[..i - 1] + NonFull(g[i - 1..])
  {
    assert g[i - 1..][0] == g[i - 1] && g[i - 1..][1..] == g[i..];
    assert g[..i] == g[..i - 1] + [g[i - 1]];
  }

  /** In a sweep state, the row at index y has width w; with rows still to
      examine it is the last of them, g[i-1]; otherwise it is one of the empty
      rows on top, which is not full when w > 0. */
  lemma SweepStateRow(g: Grid, i: nat, k: nat, w: nat, y: int)
    requires w > 0 && Uniform(g, w) && i <= |g|
    requires (i > 0 ==> y == k + i - 1) && (i == 0 ==> 0 <= y < k)
    ensures var s := ZeroRows(k, w) + g[..i] + NonFull(g[i..]);
      0 <= y < |s| && |s[y]| == w &&
      (i > 0 ==> s[y] == g[i - 1]) && (i == 0 ==> !IsFull(s[y]))
  {
    var s := ZeroRows(k, w) + g[..i] + NonFull(g[i..]);
    if i == 0 {
      assert s[y] == Zeros(w);
      assert s[y][0] == 0;
    } else {
      assert s[y] == g[..i][i - 1];
    }
  }

  /** With no row left to examine, the sweep state is the swept grid. */
  lemma SweepDone(g: Grid, i: nat, k: nat, w: nat)
    requires i == 0 && k == FullCount(g[i..])
    ensures k == FullCount(g)
    ensures ZeroRows(k, w) + g[..i] + NonFull(g[i..]) == Swept(g, w)
  {
    assert g[..i] == [] && g[i..] == g;
  }
}
