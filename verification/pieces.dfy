/**
 * The piece model: the seven tetromino matrices and the rotation that the
 * engine applies to them.  A matrix is a list of rows; a nonzero entry is an
 * occupied cell (the source's truthiness test on 0/1 entries).
 */
module Pieces {

  type Matrix = seq<seq<int>>

  /** The shape table, in the order I, O, T, L, J, S, Z. */
  const SHAPES: seq<Matrix> := [
    [[1, 1, 1, 1]],
    [[1, 1], [1, 1]],
    [[0, 1, 0], [1, 1, 1]],
    [[1, 0], [1, 0], [1, 1]],
    [[0, 1], [0, 1], [1, 1]],
    [[1, 1, 0], [0, 1, 1]],
    [[0, 1, 1], [1, 1, 0]]
  ]

  const S_INDEX := 5
  const Z_INDEX := 6

  predicate Occupied(s: Matrix, i: int, j: int) {
    0 <= i < |s| && 0 <= j < |s[i]| && s[i][j] != 0
  }

  /** At least one row, at least one column, every row as wide as the first. */
  predicate Rectangular(s: Matrix) {
    |s| > 0 && |s[0]| > 0 && forall i :: 0 <= i < |s| ==> |s[i]| == |s[0]|
  }

  /**
   * What every active piece is: a rectangle of at most 4 by 4 cells with at
   * least one occupied cell.
   */
  ghost predicate IsPiece(s: Matrix) {
    Rectangular(s) && |s| <= 4 && |s[0]| <= 4 && exists i, j :: Occupied(s, i, j)
  }

  /** The rows in reverse order (the slice `shape[::-1]`). */
  function ReverseRows(s: Matrix): Matrix {
    seq(|s|, i requires 0 <= i < |s| => s[|s| - 1 - i])
  }

  /** The length of the shortest row, where `zip` stops. */
  function MinWidth(s: Matrix): (w: nat)
    requires |s| > 0
    ensures forall i :: 0 <= i < |s| ==> w <= |s[i]|
    ensures exists i :: 0 <= i < |s| && w == |s[i]|
  {
    if |s| == 1 then |s[0]|
    else
      var rest := MinWidth(s[1..]);
      assert forall i :: 1 <= i < |s| ==> s[1..][i - 1] == s[i];
      if |s[0]| <= rest then |s[0]| else rest
  }

  /** `zip(*s)`: column j of s becomes row j; columns past the shortest row are dropped. */
  function Transpose(s: Matrix): Matrix {
    if |s| == 0 then []
    else
      var w := MinWidth(s);
      seq(w, j requires 0 <= j < w => seq(|s|, i requires 0 <= i < |s| => s[i][j]))
  }

  /** `zip(*shape[::-1])`: the rows reversed, then transposed. */
  function Rotate(s: Matrix): Matrix {
    Transpose(ReverseRows(s))
  }

  /** On a rectangle, rotation swaps the dimensions and moves cell (h-1-j, i) to (i, j): a clockwise quarter turn. */
  lemma RotateCells(s: Matrix)
    requires Rectangular(s)
    ensures Rectangular(Rotate(s))
    ensures |Rotate(s)| == |s[0]| && |Rotate(s)[0]| == |s|
    ensures forall i, j :: 0 <= i < |s[0]| && 0 <= j < |s| ==> Rotate(s)[i][j] == s[|s| - 1 - j][i]
  {
    var rev := ReverseRows(s);
    var w := MinWidth(rev);
    var k :| 0 <= k < |rev| && w == |rev[k]|;
    assert rev[k] == s[|s| - 1 - k];
  }

  /** Four quarter turns give back the original matrix. */
  lemma RotateFourTimes(s: Matrix)
    requires Rectangular(s)
    ensures Rotate(Rotate(Rotate(Rotate(s)))) == s
  {
    var h, w := |s|, |s[0]|;
    var r1 := Rotate(s);
    RotateCells(s);
    var r2 := Rotate(r1);
    RotateCells(r1);
    var r3 := Rotate(r2);
    RotateCells(r2);
    var r4 := Rotate(r3);
    RotateCells(r3);
    assert |r4| == h;
    forall i | 0 <= i < h
      ensures r4[i] == s[i]
    {
      assert |r4[i]| == w;
      forall j | 0 <= j < w
        ensures r4[i][j] == s[i][j]
      {
        calc {
          r4[i][j];
          r3[w - 1 - j][i];
          r2[h - 1 - i][w - 1 - j];
          r1[j][h - 1 - i];
          s[i][j];
        }
      }
    }
  }

  /** A rotated piece is still a piece: the bound of 4 holds in both directions and the occupied cells move with it. */
  lemma RotateKeepsPiece(s: Matrix)
    requires IsPiece(s)
    ensures IsPiece(Rotate(s))
  {
    RotateCells(s);
    var i, j :| Occupied(s, i, j);
    assert Rotate(s)[j][|s| - 1 - i] == s[i][j];
    assert Occupied(Rotate(s), j, |s| - 1 - i);
  }

  /** Every entry of the shape table is a piece whose bottom row has an occupied cell in column 1. */
  lemma ShapesArePieces()
    ensures forall k :: 0 <= k < |SHAPES| ==> IsPiece(SHAPES[k]) && Occupied(SHAPES[k], |SHAPES[k]| - 1, 1)
  {
    forall k | 0 <= k < |SHAPES|
      ensures IsPiece(SHAPES[k]) && Occupied(SHAPES[k], |SHAPES[k]| - 1, 1)
    {
      assert Occupied(SHAPES[k], |SHAPES[k]| - 1, 1);
    }
  }

  /** The square O turns into itself. */
  lemma SquareIsRotationFixed()
    ensures Rotate(SHAPES[1]) == SHAPES[1]
  {
    var o: Matrix := [[1, 1], [1, 1]];
    assert SHAPES[1] == o;
    RotateCells(o);
    var r := Rotate(o);
    assert r[0][0] == 1 && r[0][1] == 1 && r[1][0] == 1 && r[1][1] == 1;
    assert r[0] == [1, 1] && r[1] == [1, 1];
  }

  /** The bar I alternates between two distinct orientations. */
  lemma BarAlternates()
    ensures Rotate(SHAPES[0]) != SHAPES[0]
    ensures Rotate(Rotate(SHAPES[0])) == SHAPES[0]
  {
    var bar: Matrix := [[1, 1, 1, 1]];
    assert SHAPES[0] == bar;
    RotateCells(bar);
    var up := Rotate(bar);
    assert |up| == 4;
    RotateCells(up);
    var back := Rotate(up);
    assert |back| == 1 && |back[0]| == 4;
    assert back[0][0] == 1 && back[0][1] == 1 && back[0][2] == 1 && back[0][3] == 1;
    assert back[0] == [1, 1, 1, 1];
  }
}
