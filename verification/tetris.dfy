/**
 * The falling-block engine as a class whose fields its commands update in
 * place.  Each command is proved to leave the fields as the matching
 * function of module Rules says, and to keep the invariant Rules.Inv.
 * The host calls the commands only while the game is not over, hence their
 * `requires !gameOver`.
 */
module Engine {
  import opened Pieces
  import opened Playfield
  import opened Rules

  class Tetris {
    var grid: Grid
    var currentShape: Matrix
    /** Colour index 0..6 of the active piece; its cells are stored as shapeColor + 1. */
    var shapeColor: int
    var nextShape: Matrix
    var nextColor: int
    /** Column and row of the active piece's top-left corner. */
    var shapeX: int
    var shapeY: int
    var score: int
    const level: int
    /** Milliseconds between gravity steps. */
    const fallSpeed: int
    /** Time of the last gravity step. */
    var lastFall: int
    var gameOver: bool
    /** Whether the randomiser withholds S and Z; false until a host with that option is attached. */
    var excludeSz: bool
    /** Where the last hard drop found that the piece lands. */
    var ghostX: int
    var ghostY: int

    ghost function Snapshot(): State
      reads this
    {
      State(grid, currentShape, shapeColor, nextShape, nextColor, shapeX, shapeY, score, gameOver)
    }

    ghost predicate Valid()
      reads this
    {
      Inv(Snapshot())
    }

    /**
     * A new session at `level`, started at time `now`.  No host is attached
     * yet, so both draws range over all seven shapes: `first` becomes the
     * active piece, `second` the next one.
     */
    constructor (level: int, now: int, first: Draw, second: Draw)
      requires ValidDraw(first, false) && ValidDraw(second, false)
      ensures Valid() && !gameOver && !excludeSz
      ensures grid == EmptyGrid() && score == 0
      ensures currentShape == SHAPES[first.shape] && shapeColor == first.color
      ensures nextShape == SHAPES[second.shape] && nextColor == second.color
      ensures shapeX == SpawnX(currentShape) && shapeY == 0
      ensures this.level == level && fallSpeed == FallSpeed(level) && lastFall == now
    {
      grid := EmptyGrid();
      currentShape := [];
      shapeColor := 0;
      excludeSz := false;
      nextShape := ChooseShape(false, first);
      nextColor := first.color;
      score := 0;
      this.level := level;
      lastFall := now;
      fallSpeed := FallSpeed(level);
      shapeX, shapeY := 0, 0;
      ghostX, ghostY := 0, 0;
      gameOver := false;
      new;
      ChooseShapeRange(false, first);
      assert Settled(Snapshot()) by {
        forall r | 0 <= r < ROWS
          ensures !FullRow(grid[r])
        {
          assert grid[r][0] == 0;
        }
      }
      NewShape(second);
      SpawnFreeOnEmptyGrid(currentShape);
      gameOver := false;
    }

    /**
     * The host attaches itself and draws the next piece again, this time
     * with its S/Z setting applied.  The active piece stays as it is.
     */
    method AttachHost(excludeSzShapes: bool, d: Draw)
      requires Valid() && ValidDraw(d, excludeSzShapes)
      modifies this`excludeSz, this`nextShape, this`nextColor
      ensures Valid()
      ensures excludeSz == excludeSzShapes
      ensures Snapshot() == old(Snapshot()).(next := ChooseShape(excludeSzShapes, d), nextColor := d.color)
    {
      excludeSz := excludeSzShapes;
      nextShape := ChooseShape(excludeSz, d);
      nextColor := d.color;
      ChooseShapeRange(excludeSz, d);
    }

    /** Promote the next piece and draw a new one; the game is over if the spawned piece collides. */
    method NewShape(d: Draw)
      requires Settled(Snapshot()) && ValidDraw(d, excludeSz)
      modifies this`currentShape, this`shapeColor, this`nextShape, this`nextColor, this`shapeX, this`shapeY, this`gameOver
      ensures Snapshot() == Spawn(old(Snapshot()), d, excludeSz)
      ensures Valid()
    {
      currentShape := nextShape;
      shapeColor := nextColor;
      nextShape := ChooseShape(excludeSz, d);
      nextColor := d.color;
      shapeX := COLS / 2 - |currentShape[0]| / 2;
      shapeY := 0;
      var hit := CheckCollision(grid, shapeX, shapeY, currentShape);
      if hit {
        gameOver := true;
      }
      SpawnEstablishesInv(old(Snapshot()), d, excludeSz);
    }

    /** Shift the piece dx columns if it does not collide there. */
    method Move(dx: int)
      requires Valid() && !gameOver
      modifies this`shapeX
      ensures Valid()
      ensures Snapshot() == Rules.Move(old(Snapshot()), dx)
    {
      var hit := CheckCollision(grid, shapeX + dx, shapeY, currentShape);
      if !hit {
        shapeX := shapeX + dx;
      }
    }

    /** Turn the piece a quarter clockwise at the same anchor if the turned piece does not collide. */
    method Rotate()
      requires Valid() && !gameOver
      modifies this`currentShape
      ensures Valid()
      ensures Snapshot() == Turn(old(Snapshot()))
    {
      var rotated := Pieces.Rotate(currentShape);
      var hit := CheckCollision(grid, shapeX, shapeY, rotated);
      if !hit {
        RotateKeepsPiece(currentShape);
        currentShape := rotated;
      }
    }

    /** Move the piece one row down; if it collides there, put it back and lock it. */
    method Drop(d: Draw)
      requires Valid() && !gameOver && ValidDraw(d, excludeSz)
      modifies this`grid, this`score, this`currentShape, this`shapeColor, this`nextShape, this`nextColor,
        this`shapeX, this`shapeY, this`gameOver
      ensures Valid()
      ensures Snapshot() == Rules.Drop(old(Snapshot()), d, excludeSz)
    {
      ghost var st := Snapshot();
      shapeY := shapeY + 1;
      var hit := CheckCollision(grid, shapeX, shapeY, currentShape);
      if hit {
        shapeY := shapeY - 1;
        assert Snapshot() == st;
        LockShape(d);
      } else {
        assert Snapshot() == st.(y := st.y + 1);
      }
    }

    /**
     * Find the landing row and record it as the ghost position, then move the
     * piece down to it and lock it there.
     */
    method HardDrop(d: Draw)
      requires Valid() && !gameOver && ValidDraw(d, excludeSz)
      modifies this`grid, this`score, this`currentShape, this`shapeColor, this`nextShape, this`nextColor,
        this`shapeX, this`shapeY, this`gameOver, this`ghostX, this`ghostY
      ensures Valid()
      ensures Snapshot() == Rules.HardDrop(old(Snapshot()), d, excludeSz)
      ensures ghostX == old(shapeX)
      ensures ghostY == LandingRow(old(grid), old(shapeX), old(shapeY), old(currentShape))
    {
      var ghostRow := FindLandingRow(grid, shapeX, shapeY, currentShape);
      ghostX, ghostY := shapeX, ghostRow;
      LandingKeepsInv(Snapshot());
      shapeY := FindLandingRow(grid, shapeX, shapeY, currentShape);
      assert Snapshot() == old(Snapshot()).(y := shapeY);
      LockShape(d);
    }

    /** Write the piece into the grid, then spawn the next piece. */
    method LockShape(d: Draw)
      requires Valid() && !gameOver && ValidDraw(d, excludeSz)
      modifies this`grid, this`score, this`currentShape, this`shapeColor, this`nextShape, this`nextColor,
        this`shapeX, this`shapeY, this`gameOver
      ensures Valid()
      ensures Snapshot() == Lock(old(Snapshot()), d, excludeSz)
    {
      SettlePiece();
      NewShape(d);
    }

    /**
     * The part of a lock before the next piece spawns: write the piece into
     * the grid in colour shapeColor + 1, delete every full row (scanning from
     * the top) with an empty row inserted on top for each, and add the points.
     */
    method SettlePiece()
      requires Valid() && !gameOver
      modifies this`grid, this`score
      ensures Settled(Snapshot())
      ensures Snapshot() == Settle(old(Snapshot()))
    {
      ghost var st := Snapshot();
      grid := WritePiece(grid, shapeX, shapeY, currentShape, shapeColor + 1);
      ghost var placed := grid;
      var lines;
      grid, lines := ClearFullRows(grid);
      SettleSteps(st, placed, grid, lines);
      if lines > 0 {
        var baseScore: int := 10 * lines;
        var multiplier: int := lines;
        score := score + baseScore * multiplier;
      }
      SettleKeepsSettled(st);
    }

    /** The gravity timer: when more than fallSpeed ms have passed since the last step, drop one row and restart. */
    method Update(now: int, d: Draw)
      requires Valid() && !gameOver && ValidDraw(d, excludeSz)
      modifies this`grid, this`score, this`currentShape, this`shapeColor, this`nextShape, this`nextColor,
        this`shapeX, this`shapeY, this`gameOver, this`lastFall
      ensures Valid()
      ensures old(now - lastFall > fallSpeed) ==> Snapshot() == Rules.Drop(old(Snapshot()), d, excludeSz) && lastFall == now
      ensures !old(now - lastFall > fallSpeed) ==> Snapshot() == old(Snapshot()) && lastFall == old(lastFall)
    {
      if now - lastFall > fallSpeed {
        Drop(d);
        lastFall := now;
      }
    }
  }
}
