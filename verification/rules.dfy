/**
 * The engine's rules as functions of its state: spawning, locking, the
 * guarded moves and the drops.  The Tetris class in module Engine is proved
 * to change its fields exactly as these functions say; the lemmas here show
 * what the rules keep true.
 */
module Rules {
  import opened Pieces
  import opened Playfield

  /** The number of piece colours; a colour index is 0..COLORS-1 and is stored in the grid as index + 1. */
  const COLORS := 7

  /**
   * One outcome of the randomiser: an index into the shapes on offer and a
   * colour index.  The engine draws a shape and a colour together each time
   * it needs a new next piece.
   */
  datatype Draw = Draw(shape: nat, color: nat)

  /** The shapes on offer: all seven, or the first five (S and Z filtered out). */
  function ShapeChoices(excludeSz: bool): seq<Matrix> {
    if excludeSz then SHAPES[..S_INDEX] else SHAPES
  }

  predicate ValidDraw(d: Draw, excludeSz: bool) {
    d.shape < |ShapeChoices(excludeSz)| && d.color < COLORS
  }

  /** The shape a draw picks. */
  function ChooseShape(excludeSz: bool, d: Draw): Matrix
    requires ValidDraw(d, excludeSz)
  {
    ShapeChoices(excludeSz)[d.shape]
  }

  /**
   * Every draw picks a piece from the seven shapes, never S or Z when they
   * are excluded, and without the exclusion any of the seven can be drawn.
   */
  lemma ChooseShapeRange(excludeSz: bool, d: Draw)
    requires ValidDraw(d, excludeSz)
    ensures IsPiece(ChooseShape(excludeSz, d))
    ensures ChooseShape(excludeSz, d) in SHAPES
    ensures excludeSz ==> ChooseShape(excludeSz, d) != SHAPES[S_INDEX] && ChooseShape(excludeSz, d) != SHAPES[Z_INDEX]
    ensures !excludeSz ==> ChooseShape(excludeSz, d) == SHAPES[d.shape]
  {
    ShapesArePieces();
  }

  /** The points for clearing `lines` rows with one lock: 10 per row, times the number of rows. */
  function Points(lines: nat): nat {
    var base := 10 * lines;
    base * lines
  }

  /** Milliseconds between gravity steps: 1000 at level 1, 100 less per level, never below 50. */
  function FallSpeed(level: int): (ms: int)
    ensures ms >= 50
    ensures level <= 10 ==> ms == 1100 - 100 * level
    ensures level >= 11 ==> ms == 50
  {
    var speed := 1000 - (level - 1) * 100;
    if speed > 50 then speed else 50
  }

  /** The column where a piece spawns, centring its width. */
  function SpawnX(s: Matrix): int
    requires |s| > 0
  {
    COLS / 2 - |s[0]| / 2
  }

  /** The engine's state, less the timer and the configuration. */
  datatype State = State(
    grid: Grid,
    shape: Matrix,
    color: int,
    next: Matrix,
    nextColor: int,
    x: int,
    y: int,
    score: int,
    over: bool)

  /** What holds between pieces: a 20 by 10 grid of valid cells with no full row, a valid next piece, a score. */
  ghost predicate Settled(st: State) {
    && WellFormed(st.grid)
    && CellsInRange(st.grid)
    && NoFullRow(st.grid)
    && IsPiece(st.next)
    && 0 <= st.nextColor < COLORS
    && st.score >= 0
  }

  /** The invariant: a settled state with an active piece that, while the game runs, sits free at row 0 or below. */
  ghost predicate Inv(st: State) {
    && Settled(st)
    && IsPiece(st.shape)
    && 0 <= st.color < COLORS
    && (!st.over ==> st.y >= 0 && !Collides(st.grid, st.x, st.y, st.shape))
  }

  /** `new_shape`: the next piece becomes active, centred on row 0, a new next piece is drawn; game over if the spawn collides. */
  ghost function Spawn(st: State, d: Draw, excludeSz: bool): State
    requires WellFormed(st.grid) && |st.next| > 0 && ValidDraw(d, excludeSz)
  {
    var x := SpawnX(st.next);
    st.(shape := st.next, color := st.nextColor,
        next := ChooseShape(excludeSz, d), nextColor := d.color,
        x := x, y := 0,
        over := st.over || Collides(st.grid, x, 0, st.next))
  }

  /** The number of full rows once the active piece is written into the grid. */
  ghost function LockedLines(st: State): nat
    requires WellFormed(st.grid)
  {
    FullCount(Place(st.grid, st.x, st.y, st.shape, st.color + 1))
  }

  /** The state after writing the piece in colour + 1, clearing the full rows and adding the points; the next piece is not yet spawned. */
  ghost function Settle(st: State): (r: State)
    requires WellFormed(st.grid)
    ensures WellFormed(r.grid) && r.next == st.next
  {
    var placed := Place(st.grid, st.x, st.y, st.shape, st.color + 1);
    ClearedRows(placed);
    st.(grid := Cleared(placed), score := st.score + Points(LockedLines(st)))
  }

  /** Settling is writing the piece, clearing, and adding 10 * lines * lines points when lines > 0. */
  lemma SettleSteps(st: State, placed: Grid, cleared: Grid, lines: nat)
    requires WellFormed(st.grid)
    requires placed == Place(st.grid, st.x, st.y, st.shape, st.color + 1)
    requires cleared == Cleared(placed) && lines == FullCount(placed)
    ensures Settle(st) == st.(grid := cleared, score := if lines > 0 then st.score + (10 * lines) * lines else st.score)
  {
  }

  /** `lock_shape`: settle the piece, then spawn the next one. */
  ghost function Lock(st: State, d: Draw, excludeSz: bool): State
    requires WellFormed(st.grid) && |st.next| > 0 && ValidDraw(d, excludeSz)
  {
    Spawn(Settle(st), d, excludeSz)
  }

  /** `move`: shift by dx columns unless the shifted piece collides. */
  ghost function Move(st: State, dx: int): State
    requires WellFormed(st.grid)
  {
    if Collides(st.grid, st.x + dx, st.y, st.shape) then st else st.(x := st.x + dx)
  }

  /** `rotate`: turn the piece a quarter clockwise at the same anchor unless the turned piece collides. */
  ghost function Turn(st: State): State
    requires WellFormed(st.grid)
  {
    var turned := Rotate(st.shape);
    if Collides(st.grid, st.x, st.y, turned) then st else st.(shape := turned)
  }

  /** `drop`: one row down, or, when that collides, lock at the current row. */
  ghost function Drop(st: State, d: Draw, excludeSz: bool): State
    requires WellFormed(st.grid) && |st.next| > 0 && ValidDraw(d, excludeSz)
  {
    if Collides(st.grid, st.x, st.y + 1, st.shape) then Lock(st, d, excludeSz) else st.(y := st.y + 1)
  }

  /** `hard_drop`: descend to the landing row, then lock there. */
  ghost function HardDrop(st: State, d: Draw, excludeSz: bool): State
    requires WellFormed(st.grid) && IsPiece(st.shape) && |st.next| > 0 && ValidDraw(d, excludeSz)
  {
    Lock(st.(y := LandingRow(st.grid, st.x, st.y, st.shape)), d, excludeSz)
  }

  /** Spawning from a settled state gives a state with a valid active piece; it is free unless the game is over. */
  lemma SpawnEstablishesInv(st: State, d: Draw, excludeSz: bool)
    requires Settled(st) && ValidDraw(d, excludeSz)
    ensures Inv(Spawn(st, d, excludeSz))
  {
    ChooseShapeRange(excludeSz, d);
  }

  /**
   * Writing a free piece into a settled grid, then clearing, gives a settled
   * state again, and at most four rows (the piece's height) are cleared.
   */
  lemma SettleKeepsSettled(st: State)
    requires Inv(st) && !st.over
    ensures Settled(Settle(st))
    ensures LockedLines(st) <= 4
  {
    var v := st.color + 1;
    var placed := Place(st.grid, st.x, st.y, st.shape, v);
    PlaceInsideGrid(st.grid, st.x, st.y, st.shape, v);
    forall r, c | 0 <= r < |placed| && 0 <= c < |placed[r]|
      ensures 0 <= placed[r][c] <= MAX_CELL
    {
      assert placed[r][c] == v || placed[r][c] == st.grid[r][c];
    }
    ClearedRows(placed);
    LinesAtMostPieceHeight(st.grid, st.x, st.y, st.shape, v);
  }

  /** Locking a free piece keeps the invariant. */
  lemma LockKeepsInv(st: State, d: Draw, excludeSz: bool)
    requires Inv(st) && !st.over && ValidDraw(d, excludeSz)
    ensures Inv(Lock(st, d, excludeSz))
  {
    SettleKeepsSettled(st);
    SpawnEstablishesInv(Settle(st), d, excludeSz);
  }

  /** One lock adds 10 * lines * lines points for 0..4 cleared lines: 0, 10, 40, 90 or 160, so the score never decreases. */
  lemma LockScore(st: State, d: Draw, excludeSz: bool)
    requires Inv(st) && !st.over && ValidDraw(d, excludeSz)
    ensures Lock(st, d, excludeSz).score - st.score == 10 * LockedLines(st) * LockedLines(st)
    ensures Lock(st, d, excludeSz).score - st.score in {0, 10, 40, 90, 160}
  {
    SettleKeepsSettled(st);
    var n := LockedLines(st);
    assert n == 0 || n == 1 || n == 2 || n == 3 || n == 4;
  }

  /** A guarded move keeps the invariant: the piece only shifts to a free placement. */
  lemma MoveKeepsInv(st: State, dx: int)
    requires Inv(st) && !st.over
    ensures Inv(Move(st, dx))
  {
  }

  /** An accepted move is undone by the opposite move: the original placement is free, so the way back is never blocked. */
  lemma MoveUndo(st: State, dx: int)
    requires Inv(st) && !st.over && !Collides(st.grid, st.x + dx, st.y, st.shape)
    ensures Move(st, dx) == st.(x := st.x + dx)
    ensures Move(Move(st, dx), -dx) == st
  {
  }

  /** A guarded rotation keeps the invariant: an accepted turn keeps a valid piece at a free placement. */
  lemma TurnKeepsInv(st: State)
    requires Inv(st) && !st.over
    ensures Inv(Turn(st))
  {
    RotateKeepsPiece(st.shape);
  }

  /** A soft drop keeps the invariant, whether it steps one row down or locks the piece where it is. */
  lemma DropKeepsInv(st: State, d: Draw, excludeSz: bool)
    requires Inv(st) && !st.over && ValidDraw(d, excludeSz)
    ensures Inv(Drop(st, d, excludeSz))
  {
    if Collides(st.grid, st.x, st.y + 1, st.shape) {
      LockKeepsInv(st, d, excludeSz);
    }
  }

  /** The landing row is free and at or below the current row, so moving a free piece there keeps the invariant. */
  lemma LandingKeepsInv(st: State)
    requires Inv(st) && !st.over
    ensures Inv(st.(y := LandingRow(st.grid, st.x, st.y, st.shape)))
  {
  }

  /** Hence a hard drop keeps the invariant too. */
  lemma HardDropKeepsInv(st: State, d: Draw, excludeSz: bool)
    requires Inv(st) && !st.over && ValidDraw(d, excludeSz)
    ensures Inv(HardDrop(st, d, excludeSz))
  {
    LandingKeepsInv(st);
    LockKeepsInv(st.(y := LandingRow(st.grid, st.x, st.y, st.shape)), d, excludeSz);
  }

  /** Pushing a piece into the left wall changes nothing. */
  lemma MoveIntoLeftWall(st: State, i: int, j: int)
    requires WellFormed(st.grid) && Occupied(st.shape, i, j) && st.x + j == 0
    ensures Move(st, -1) == st
  {
    assert Blocked(st.grid, st.y + i, st.x - 1 + j);
  }

  /** Every piece spawns free on the empty grid. */
  lemma SpawnFreeOnEmptyGrid(s: Matrix)
    requires IsPiece(s)
    ensures !Collides(EmptyGrid(), SpawnX(s), 0, s)
  {
    var g := EmptyGrid();
    forall i, j | Occupied(s, i, j)
      ensures !Blocked(g, i, SpawnX(s) + j)
    {
      assert g[i][SpawnX(s) + j] == 0;
    }
  }

  /** The bar, hard-dropped from its spawn on the empty grid, lands on the bottom row. */
  lemma BarLandsOnBottomRow()
    ensures IsPiece(SHAPES[0]) && LandingRow(EmptyGrid(), SpawnX(SHAPES[0]), 0, SHAPES[0]) == ROWS - 1
  {
    ShapesArePieces();
    LandingOnEmptyGrid(SpawnX(SHAPES[0]), 0, SHAPES[0], 1);
  }
}
