/**
 * The playfield: a grid of ROWS rows by COLS columns, the collision test of
 * a piece against it, and the pure descriptions of what locking a piece does
 * to it (writing the piece's cells, then clearing full rows).
 */
module Playfield {
  import opened Pieces

  const ROWS := 20
  const COLS := 10
  /** A cell holds 0 (empty) or a colour number 1..MAX_CELL. */
  const MAX_CELL := 7

  /** The grid, row 0 at the top; grid[row][col]. */
  type Grid = seq<seq<int>>

  predicate WellFormed(g: Grid) {
    |g| == ROWS && forall r :: 0 <= r < |g| ==> |g[r]| == COLS
  }

  ghost predicate CellsInRange(g: Grid) {
    forall r, c :: 0 <= r < |g| && 0 <= c < |g[r]| ==> 0 <= g[r][c] <= MAX_CELL
  }

  function EmptyRow(): seq<int> {
    seq(COLS, _ => 0)
  }

  function EmptyGrid(): Grid {
    seq(ROWS, _ => EmptyRow())
  }

  /**
   * Whether an occupied piece cell that lands on (row, col) collides: outside
   * the side walls, at or below the floor, or on a filled cell of the grid.
   * A cell above the top (row < 0) is blocked only by the side walls.
   */
  ghost predicate Blocked(g: Grid, row: int, col: int)
    requires WellFormed(g)
  {
    col < 0 || col >= COLS || row >= ROWS || (row >= 0 && g[row][col] != 0)
  }

  /** Whether some occupied cell of s, anchored with its top-left corner at column x, row y, is blocked. */
  ghost predicate Collides(g: Grid, x: int, y: int, s: Matrix)
    requires WellFormed(g)
  {
    exists i, j :: Occupied(s, i, j) && Blocked(g, y + i, x + j)
  }

  /** The engine's collision check: scans the piece row by row and stops at the first blocked cell. */
  method CheckCollision(g: Grid, x: int, y: int, s: Matrix) returns (hit: bool)
    requires WellFormed(g)
    ensures hit <==> Collides(g, x, y, s)
  {
    for row := 0 to |s|
      invariant forall i, j :: 0 <= i < row && Occupied(s, i, j) ==> !Blocked(g, y + i, x + j)
    {
      for col := 0 to |s[row]|
        invariant forall j :: 0 <= j < col && Occupied(s, row, j) ==> !Blocked(g, y + row, x + j)
      {
        if s[row][col] != 0 {
          if x + col < 0 || x + col >= COLS || y + row >= ROWS || (y + row >= 0 && g[y + row][x + col] != 0) {
            assert Occupied(s, row, col) && Blocked(g, y + row, x + col);
            return true;
          }
        }
      }
    }
    return false;
  }

  /** A piece with an occupied cell that does not collide has its anchor row above the floor. */
  lemma FreePlacementAboveFloor(g: Grid, x: int, y: int, s: Matrix)
    requires WellFormed(g) && IsPiece(s) && !Collides(g, x, y, s)
    ensures y < ROWS
  {
    var i, j :| Occupied(s, i, j);
    assert !Blocked(g, y + i, x + j);
  }

  /** The grid with value v written on every cell under an occupied cell of s anchored at (x, y). */
  ghost function Place(g: Grid, x: int, y: int, s: Matrix, v: int): (p: Grid)
    requires WellFormed(g)
    ensures WellFormed(p)
  {
    seq(ROWS, r requires 0 <= r < ROWS =>
      seq(COLS, c requires 0 <= c < COLS => if Occupied(s, r - y, c - x) then v else g[r][c]))
  }

  /**
   * Writing a piece that does not collide, anchored at row 0 or below, stays
   * inside the grid: every occupied cell lands on an empty grid cell, which
   * receives v, and every other cell keeps its value.
   */
  lemma PlaceInsideGrid(g: Grid, x: int, y: int, s: Matrix, v: int)
    requires WellFormed(g) && !Collides(g, x, y, s) && y >= 0
    ensures WellFormed(Place(g, x, y, s, v))
    ensures forall i, j :: Occupied(s, i, j) ==>
      0 <= y + i < ROWS && 0 <= x + j < COLS && g[y + i][x + j] == 0 && Place(g, x, y, s, v)[y + i][x + j] == v
    ensures forall r, c :: 0 <= r < ROWS && 0 <= c < COLS && !Occupied(s, r - y, c - x) ==>
      Place(g, x, y, s, v)[r][c] == g[r][c]
  {
    forall i, j | Occupied(s, i, j)
      ensures 0 <= y + i < ROWS && 0 <= x + j < COLS && g[y + i][x + j] == 0
    {
      assert !Blocked(g, y + i, x + j);
    }
  }

  /** The first loop of a lock: writes v into every grid cell under an occupied cell of the piece, row by row. */
  method WritePiece(g: Grid, x: int, y: int, s: Matrix, v: int) returns (p: Grid)
    requires WellFormed(g) && !Collides(g, x, y, s) && y >= 0
    ensures p == Place(g, x, y, s, v)
  {
    PlaceInsideGrid(g, x, y, s, v);
    p := g;
    for row := 0 to |s|
      invariant WellFormed(p)
      invariant forall r, c :: 0 <= r < ROWS && 0 <= c < COLS ==>
        p[r][c] == if Occupied(s, r - y, c - x) && r - y < row then v else g[r][c]
    {
      for col := 0 to |s[row]|
        invariant WellFormed(p)
        invariant forall r, c :: 0 <= r < ROWS && 0 <= c < COLS ==>
          p[r][c] == if Occupied(s, r - y, c - x) && (r - y < row || (r - y == row && c - x < col)) then v else g[r][c]
      {
        if s[row][col] != 0 {
          assert Occupied(s, row, col);
          p := p[y + row := p[y + row][x + col := v]];
        }
      }
    }
    var placed := Place(g, x, y, s, v);
    forall r | 0 <= r < ROWS
      ensures p[r] == placed[r]
    {
      assert forall c :: 0 <= c < COLS ==> p[r][c] == placed[r][c];
    }
  }

  /** A row is full when every one of its cells is nonzero (`all(row)`). */
  predicate FullRow(row: seq<int>) {
    forall c :: 0 <= c < |row| ==> row[c] != 0
  }

  ghost predicate NoFullRow(g: Grid) {
    forall r :: 0 <= r < |g| ==> !FullRow(g[r])
  }

  /** The number of full rows. */
  ghost function FullCount(g: Grid): nat {
    if g == [] then 0 else FullCount(g[..|g| - 1]) + (if FullRow(g[|g| - 1]) then 1 else 0)
  }

  /** The rows that are not full, top to bottom in their original order. */
  ghost function Survivors(g: Grid): (kept: Grid)
    ensures |kept| + FullCount(g) == |g|
  {
    if g == [] then []
    else
      var front, last := g[..|g| - 1], g[|g| - 1];
      Survivors(front) + (if FullRow(last) then [] else [last])
  }

  /** The surviving rows are exactly the rows that are not full. */
  lemma {:induction false} SurvivorsRows(g: Grid)
    ensures forall i :: 0 <= i < |Survivors(g)| ==> Survivors(g)[i] in g && !FullRow(Survivors(g)[i])
    ensures forall i :: 0 <= i < |g| && !FullRow(g[i]) ==> g[i] in Survivors(g)
  {
    if g != [] {
      var front, last := g[..|g| - 1], g[|g| - 1];
      SurvivorsRows(front);
      assert g == front + [last];
      var kept := Survivors(g);
      assert kept == Survivors(front) + (if FullRow(last) then [] else [last]);
      forall i | 0 <= i < |g| && !FullRow(g[i])
        ensures g[i] in kept
      {
        if i < |g| - 1 {
          assert g[i] == front[i];
          assert g[i] in Survivors(front);
        }
      }
    }
  }

  ghost function EmptyRows(n: nat): Grid {
    seq(n, _ => EmptyRow())
  }

  /** The grid after every full row is deleted and as many empty rows are inserted on top. */
  ghost function Cleared(g: Grid): Grid {
    EmptyRows(FullCount(g)) + Survivors(g)
  }

  /**
   * The second loop of a lock: scans the rows top to bottom; each full row is
   * deleted and an empty row inserted on top, which shifts the rows already
   * scanned down by one, so the scan goes on with the next unscanned row.
   */
  method ClearFullRows(g: Grid) returns (p: Grid, lines: nat)
    ensures p == Cleared(g) && lines == FullCount(g)
  {
    p := g;
    lines := 0;
    for row := 0 to |g|
      invariant |p| == |g|
      invariant p[..row] == EmptyRows(lines) + Survivors(g[..row])
      invariant p[row..] == g[row..]
      invariant lines == FullCount(g[..row])
    {
      ghost var upTo := g[..row + 1];
      assert upTo[..row] == g[..row];
      assert upTo[row] == g[row] == p[row];
      if FullRow(p[row]) {
        ghost var before := p;
        p := p[..row] + p[row + 1..];
        p := [EmptyRow()] + p;
        lines := lines + 1;
        assert p[..row + 1] == [EmptyRow()] + before[..row];
        assert p[row + 1..] == before[row + 1..];
        assert EmptyRows(lines) == [EmptyRow()] + EmptyRows(lines - 1);
      } else {
        assert p[..row + 1] == p[..row] + [p[row]];
      }
    }
    assert p[..|g|] == p && g[..|g|] == g;
  }

  /**
   * Clearing keeps the height, leaves no full row, puts the empty rows on top
   * and otherwise only rows that were already there and not full; so it keeps
   * a well-formed grid well formed and keeps cell values in range.
   */
  lemma ClearedRows(g: Grid)
    ensures |Cleared(g)| == |g|
    ensures NoFullRow(Cleared(g))
    ensures forall r :: 0 <= r < FullCount(g) ==> Cleared(g)[r] == EmptyRow()
    ensures forall r :: FullCount(g) <= r < |g| ==> Cleared(g)[r] in g && !FullRow(Cleared(g)[r])
    ensures WellFormed(g) ==> WellFormed(Cleared(g))
    ensures CellsInRange(g) ==> CellsInRange(Cleared(g))
  {
    var n := FullCount(g);
    var kept := Survivors(g);
    var c := Cleared(g);
    SurvivorsRows(g);
    forall r | 0 <= r < |c|
      ensures r < n ==> c[r] == EmptyRow()
      ensures n <= r ==> c[r] == kept[r - n] && c[r] in g
      ensures !FullRow(c[r])
    {
      if r < n {
        assert c[r] == EmptyRow();
        assert c[r][0] == 0;
      } else {
        assert c[r] == kept[r - n];
        assert c[r] in kept;
      }
    }
    if WellFormed(g) {
      forall r | 0 <= r < |c|
        ensures |c[r]| == COLS
      {
        if n <= r {
          var k :| 0 <= k < |g| && g[k] == c[r];
        }
      }
    }
    if CellsInRange(g) {
      forall r, col | 0 <= r < |c| && 0 <= col < |c[r]|
        ensures 0 <= c[r][col] <= MAX_CELL
      {
        if n <= r {
          var k :| 0 <= k < |g| && g[k] == c[r];
          assert c[r][col] == g[k][col];
        }
      }
    }
  }

  /** Clearing distributes over stacking: the surviving rows of the top part stay above those of the bottom part. */
  lemma {:induction false} SurvivorsAppend(top: Grid, bottom: Grid)
    ensures Survivors(top + bottom) == Survivors(top) + Survivors(bottom)
    decreases |bottom|
  {
    if bottom == [] {
      assert top + bottom == top;
    } else {
      var front, last := bottom[..|bottom| - 1], bottom[|bottom| - 1];
      var whole := top + bottom;
      assert whole[..|whole| - 1] == top + front;
      assert whole[|whole| - 1] == last;
      SurvivorsAppend(top, front);
    }
  }

  /** A grid without full rows is left as it is. */
  lemma {:induction false} NothingToClear(g: Grid)
    requires NoFullRow(g)
    ensures FullCount(g) == 0 && Survivors(g) == g
    ensures Cleared(g) == g
  {
    if g != [] {
      var front := g[..|g| - 1];
      assert forall r :: 0 <= r < |front| ==> front[r] == g[r];
      NothingToClear(front);
      assert g == front + [g[|g| - 1]];
    }
    assert EmptyRows(0) == [];
  }

  /** Clearing twice is clearing once. */
  lemma ClearedIdempotent(g: Grid)
    ensures Cleared(Cleared(g)) == Cleared(g)
  {
    ClearedRows(g);
    NothingToClear(Cleared(g));
  }

  /** If every full row lies in rows lo..hi-1, there are at most hi - lo of them (counted over a prefix of length |g|). */
  lemma {:induction false} FullCountWithin(g: Grid, lo: int, hi: int)
    requires 0 <= lo <= hi
    requires forall r :: 0 <= r < |g| && FullRow(g[r]) ==> lo <= r < hi
    ensures FullCount(g) <= (if |g| <= lo then 0 else if |g| <= hi then |g| - lo else hi - lo)
  {
    if g != [] {
      var front := g[..|g| - 1];
      assert forall r :: 0 <= r < |front| ==> front[r] == g[r];
      FullCountWithin(front, lo, hi);
    }
  }

  /**
   * Writing a piece into a grid with no full row can only fill rows the piece
   * spans, so at most |s| rows become full.
   */
  lemma LinesAtMostPieceHeight(g: Grid, x: int, y: int, s: Matrix, v: int)
    requires WellFormed(g) && NoFullRow(g) && y >= 0
    ensures FullCount(Place(g, x, y, s, v)) <= |s|
  {
    var p := Place(g, x, y, s, v);
    forall r | 0 <= r < ROWS && !(y <= r < y + |s|)
      ensures p[r] == g[r]
    {
      forall c | 0 <= c < COLS
        ensures p[r][c] == g[r][c]
      {
        assert !Occupied(s, r - y, c - x);
      }
    }
    FullCountWithin(p, y, y + |s|);
  }

  /**
   * The row a hard drop reaches from row y: every one-row step down to it is
   * free and the step after it collides.
   */
  ghost function LandingRow(g: Grid, x: int, y: int, s: Matrix): (r: int)
    requires WellFormed(g) && IsPiece(s)
    ensures y <= r
    ensures Collides(g, x, r + 1, s)
    ensures forall k :: y < k <= r ==> !Collides(g, x, k, s)
    decreases ROWS - y
  {
    if Collides(g, x, y + 1, s) then y
    else
      FreePlacementAboveFloor(g, x, y + 1, s);
      LandingRow(g, x, y + 1, s)
  }

  /** The descent loop of a hard drop: steps down one row at a time while the row below is free. */
  method FindLandingRow(g: Grid, x: int, y: int, s: Matrix) returns (r: int)
    requires WellFormed(g) && IsPiece(s)
    ensures r == LandingRow(g, x, y, s)
  {
    r := y;
    var blocked := CheckCollision(g, x, r + 1, s);
    while !blocked
      invariant blocked <==> Collides(g, x, r + 1, s)
      invariant LandingRow(g, x, r, s) == LandingRow(g, x, y, s)
      decreases ROWS - r
    {
      FreePlacementAboveFloor(g, x, r + 1, s);
      r := r + 1;
      blocked := CheckCollision(g, x, r + 1, s);
    }
  }

  /**
   * On the empty grid a piece whose bottom row is occupied and whose columns
   * fit between the walls lands with its bottom row on the floor.
   */
  lemma {:induction false} LandingOnEmptyGrid(x: int, y: int, s: Matrix, j0: int)
    requires IsPiece(s) && Occupied(s, |s| - 1, j0)
    requires 0 <= x && x + |s[0]| <= COLS
    requires 0 <= y <= ROWS - |s|
    ensures LandingRow(EmptyGrid(), x, y, s) == ROWS - |s|
    decreases ROWS - y
  {
    var g := EmptyGrid();
    if y == ROWS - |s| {
      assert Blocked(g, y + 1 + (|s| - 1), x + j0);
    } else {
      forall i, j | Occupied(s, i, j)
        ensures !Blocked(g, y + 1 + i, x + j)
      {
        assert g[y + 1 + i][x + j] == 0;
      }
      LandingOnEmptyGrid(x, y + 1, s, j0);
    }
  }
}
