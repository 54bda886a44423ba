/**
 * The shape catalog: seven piece kinds named by the letters "ILJOTSZ", each a
 * matrix of 0 and 1. The T and Z entries hold the same cells, as in the game.
 */
module Shapes {
  import opened Board

  datatype Option<T> = None | Some(value: T)

  /** The kind letters, in catalog order. */
  const Letters: string := "ILJOTSZ"

  /** The shape of each kind, in the order of `Letters`. */
  const Catalog: seq<Grid> := [
    [[1, 1, 1, 1]],          // I
    [[1, 1, 1], [0, 1, 0]],  // L
    [[1, 1, 1], [1, 0, 0]],  // J
    [[1, 1], [1, 1]],        // O
    [[1, 1, 0], [0, 1, 1]],  // T
    [[0, 1, 1], [1, 1, 0]],  // S
    [[1, 1, 0], [0, 1, 1]]   // Z
  ]

  /** The position of the first `c` in `s`, or -1 when `s` has none (`String.indexOf`). */
  function IndexOf(s: string, c: char): (i: int)
    ensures -1 <= i < |s|
    ensures i == -1 <==> c !in s
    ensures 0 <= i ==> s[i] == c && c !in s[..i]
  {
    if s == [] then -1
    else if s[0] == c then 0
    else
      var k := IndexOf(s[1..], c);
      if k == -1 then -1 else k + 1
  }

  /** The shape of the kind named `kind`; a letter outside the catalog reads
      the entry at index -1, which does not exist. */
  function CreatePiece(kind: char): (p: Option<Grid>)
    ensures p.Some? <==> kind in Letters
    ensures p.Some? ==> p.value in Catalog
  {
    var index := IndexOf(Letters, kind) + 1;
    if index - 1 < 0 then None else Some(Catalog[index - 1])
  }

  /** The letter at position i names the shape at position i. */
  lemma CreatePieceOfLetter(i: nat)
    requires i < |Letters|
    ensures CreatePiece(Letters[i]) == Some(Catalog[i])
  {
    var k := IndexOf(Letters, Letters[i]);
    assert Letters[k] == Letters[i];
    assert forall a, b :: 0 <= a < b < |Letters| ==> Letters[a] != Letters[b];
  }

  /** Every catalog shape has one or two rows of the same width, at most four,
      holds only 0 and 1, can be turned, and occupies every row and column of
      its turning box. */
  lemma CatalogShape(i: nat)
    requires i < |Catalog|
    ensures 1 <= |Catalog[i]| <= 2
    ensures forall r :: 0 <= r < |Catalog[i]| ==> 0 < |Catalog[i][r]| == |Catalog[i][0]| <= 4
    ensures Binary(Catalog[i]) && WellShaped(Catalog[i]) && FillsBox(Catalog[i])
  {
    var m := Catalog[i];
    if i == 0 {
      assert m[0][0] != 0;
    } else {
      // Each row and each column of the 2-by-2 box holds a cell.
      assert m[0][1] != 0;
      assert RowHasCell(m, 1) by {
        if m[1][1] == 0 { assert m[1][0] != 0; }
      }
      assert ColumnHasCell(m, 0) by {
        if m[0][0] == 0 { assert m[1][0] != 0; }
      }
    }
  }

  /** Every catalog shape has a first row. */
  lemma CatalogNonEmpty(i: nat)
    requires i < |Catalog|
    ensures |Catalog[i]| >= 1
  {
  }

  /** The catalog's T and Z entries are the same matrix. */
  lemma TAndZAlike()
    ensures Catalog[IndexOf(Letters, 'T')] == Catalog[IndexOf(Letters, 'Z')]
    ensures IndexOf(Letters, 'T') != IndexOf(Letters, 'Z')
  {
    CreatePieceOfLetter(4);
    CreatePieceOfLetter(6);
  }
}
