/** The game engine: the board (`Field`) and the falling piece (`Shape`).
    The two classes call each other (landing spawns the next piece, moving
    down lands the piece), so they live in one module. The piece the random
    choice would pick is passed in as an argument. */
module GameClasses {
  import opened Grid
  import opened Rotation
  import opened Placement
  import opened Clearing

  /** The board: a `rows` x `columns` grid of cells, the score, and two flags. */
  class Field {
    const rows: nat
    const columns: nat
    var grid: Cells
    var score: nat
    var wantNewShape: bool
    var isGameOver: bool

    /** The grid has exactly `rows` rows of `columns` cells. */
    ghost predicate Valid()
      reads this
    {
      Rectangular(grid, rows, columns)
    }

    /** Valid, and large enough for the piece's collision check. */
    ghost predicate Playable()
      reads this
    {
      Valid() && rows >= Height && columns >= Width
    }

    /** What landing piece `s` at (`py`, `px`) on board `g` leaves behind:
        the piece fused into the board, full rows cleared, 10 points per
        deleted row, and the next piece spawned (game over if it cannot be
        placed at the spawn point). */
    ghost predicate LandedFrom(g: Cells, s: Cells, py: int, px: int, score0: nat, over0: bool,
                               piece: Shape, next: Cells)
      reads this, piece
    {
      var o := ClearRows(Fuse(g, s, py, px), columns);
      Playable() &&
      grid == o.grid && score == score0 + 10 * o.deleted &&
      !wantNewShape &&
      isGameOver == (over0 || !CanPlace(next, grid, SpawnRow, SpawnColumn)) &&
      piece.shape == next && piece.y == SpawnRow && piece.x == SpawnColumn
    }

    /** A new game: an empty board, no score, waiting for the first piece. */
    constructor (rows: nat, columns: nat)
      ensures Valid() && this.rows == rows && this.columns == columns
      ensures grid == Empty(rows, columns)
      ensures score == 0 && wantNewShape && !isGameOver
    {
      this.rows := rows;
      this.columns := columns;
      grid := Empty(rows, columns);
      score := 0;
      wantNewShape := true;
      isGameOver := false;
    }

    /** Writes the piece into the grid cell by cell, clears full rows, and
        (always, as clearing asks for it) spawns the next piece `next`. */
    method LandShape(piece: Shape, next: Cells)
      requires Playable() && piece.Valid() && ValidShape(next)
      requires Inside(piece.shape, piece.y, piece.x, rows, columns)
      modifies this, piece
      ensures piece.Valid()
      ensures LandedFrom(old(grid), old(piece.shape), old(piece.y), old(piece.x), old(score),
                         old(isGameOver), piece, next)
    {
      ghost var g0 := grid;
      var s, py, px := piece.shape, piece.y, piece.x;
      var y := 0;
      while y < |s|
        invariant 0 <= y <= |s|
        invariant Playable() && unchanged(piece)
        invariant score == old(score) && isGameOver == old(isGameOver)
        invariant FusedUpTo(grid, g0, s, py, px, y, 0)
      {
        var x := 0;
        while x < |s[y]|
          invariant 0 <= x <= |s[y]|
          invariant Playable() && unchanged(piece)
          invariant score == old(score) && isGameOver == old(isGameOver)
          invariant FusedUpTo(grid, g0, s, py, px, y, x)
        {
          FuseStep(grid, g0, s, py, px, y, x, rows, columns);
          if s[y][x] != 0 {
            grid := grid[y + py := grid[y + py][x + px := s[y][x]]];
          }
          x := x + 1;
        }
        FuseRowDone(grid, g0, s, py, px, y);
        y := y + 1;
      }
      FuseDone(grid, g0, s, py, px);

      DelFullRows();

      if wantNewShape {
        piece.NewShape(this, next);
      }
    }

    /** One pass over the rows as they stood when the call began, deleting
        each full row met and putting an empty row on top (see `ClearRows`
        for which rows that actually removes). */
    method DelFullRows()
      requires Valid()
      modifies this`grid, this`score, this`wantNewShape
      ensures Valid()
      ensures grid == ClearRows(old(grid), columns).grid
      ensures score == old(score) + 10 * ClearRows(old(grid), columns).deleted
      ensures wantNewShape
    {
      ghost var g0 := grid;
      ghost var n: nat := 0;
      var rowsSeen := grid;   // the list the enumeration walks
      var same := true;       // whether the board still is that very list
      var y := 0;
      while y < |rowsSeen|
        invariant y <= |rowsSeen| + 1
        invariant Valid()
        invariant score == old(score) + 10 * n
        invariant same ==> rowsSeen == grid == g0 && n == 0 && y <= |g0|
        invariant same ==> forall i :: 0 <= i < y ==> !IsFull(g0[i])
        invariant !same ==>
          var k := FirstFull(g0, 0);
          k < |g0| && k < y && rowsSeen == Remove(g0, k) && |grid| == |rowsSeen| + 1 &&
          ClearRows(g0, columns) ==
            Outcome(StalePass(rowsSeen, grid, y, columns).grid,
                    StalePass(rowsSeen, grid, y, columns).deleted + n)
        decreases |rowsSeen| + 1 - y
      {
        if IsFull(rowsSeen[y]) {
          if same {
            // the deletion shortens the enumerated list itself
            rowsSeen := Remove(rowsSeen, y);
            grid := rowsSeen;
          } else {
            grid := Remove(grid, y);
          }
          grid := [Zeros(columns)] + grid;
          same := false;
          score := score + 10;
          n := n + 1;
        }
        y := y + 1;
      }
      wantNewShape := true;
    }
  }

  /** The falling piece: a cell matrix and the board position (row `y`,
      column `x`) of its top-left corner. */
  class Shape {
    var shape: Cells
    var y: int
    var x: int

    /** The piece came from the catalog or from rotating one. */
    ghost predicate Valid()
      reads this
    {
      ValidShape(shape)
    }

    /** A piece with nothing in it yet; `NewShape` gives it its cells. */
    constructor ()
      ensures shape == [] && y == 0 && x == 0
    {
      shape := [];
      y := 0;
      x := 0;
    }

    /** Spawns piece `s` at the spawn point and ends the game if it does not
        fit there. */
    method NewShape(board: Field, s: Cells)
      requires board.Playable() && ValidShape(s)
      modifies this, board`wantNewShape, board`isGameOver
      ensures Valid() && shape == s && y == SpawnRow && x == SpawnColumn
      ensures !board.wantNewShape
      ensures board.isGameOver == (old(board.isGameOver) || !CanPlace(s, board.grid, SpawnRow, SpawnColumn))
    {
      shape := s;
      y, x := SpawnRow, SpawnColumn;
      board.wantNewShape := false;
      var ok := TryMove(board, x, y);
      if !ok {
        board.isGameOver := true;
      }
    }

    /** The collision check: moves the piece to column `dx`, row `dy` when
        every occupied cell lands inside the 20 x 10 area on an empty cell,
        and otherwise leaves it where it is. The board is only read. */
    method TryMove(board: Field, dx: int, dy: int) returns (ok: bool)
      requires board.Playable()
      modifies this`x, this`y
      ensures ok == CanPlace(shape, board.grid, dy, dx)
      ensures ok ==> y == dy && x == dx
      ensures !ok ==> y == old(y) && x == old(x)
    {
      var r := 0;
      while r < |shape|
        invariant 0 <= r <= |shape|
        invariant y == old(y) && x == old(x)
        invariant forall a, b :: 0 <= a < r && 0 <= b < |shape[a]| && shape[a][b] != 0 ==>
          0 <= b + dx < Width && 0 <= a + dy < Height && board.grid[a + dy][b + dx] == 0
      {
        var c := 0;
        while c < |shape[r]|
          invariant 0 <= c <= |shape[r]|
          invariant y == old(y) && x == old(x)
          invariant forall a, b :: 0 <= a < r && 0 <= b < |shape[a]| && shape[a][b] != 0 ==>
            0 <= b + dx < Width && 0 <= a + dy < Height && board.grid[a + dy][b + dx] == 0
          invariant forall b :: 0 <= b < c && shape[r][b] != 0 ==>
            0 <= b + dx < Width && 0 <= r + dy < Height && board.grid[r + dy][b + dx] == 0
        {
          if shape[r][c] != 0 {
            if c + dx < 0 || c + dx >= Width || r + dy < 0 || r + dy >= Height {
              return false;
            }
            if board.grid[r + dy][c + dx] != 0 {
              return false;
            }
          }
          c := c + 1;
        }
        r := r + 1;
      }
      x, y := dx, dy;
      return true;
    }

    /** One row down if the piece fits there; otherwise it lands where it is. */
    method MoveDown(board: Field, next: Cells)
      requires board.Playable() && Valid() && ValidShape(next)
      requires Inside(shape, y, x, Height, Width)
      modifies this, board
      ensures Valid()
      ensures old(CanPlace(shape, board.grid, y + 1, x)) ==>
        shape == old(shape) && y == old(y) + 1 && x == old(x) && unchanged(board)
      ensures !old(CanPlace(shape, board.grid, y + 1, x)) ==>
        board.LandedFrom(old(board.grid), old(shape), old(y), old(x), old(board.score),
                         old(board.isGameOver), this, next)
    {
      var moved := TryMove(board, x, y + 1);
      if !moved {
        board.LandShape(this, next);
      }
    }

    /** Hard drop: keeps moving one row down while that fits, then lands. */
    method DropDown(board: Field, next: Cells)
      requires board.Playable() && Valid() && ValidShape(next)
      requires Inside(shape, y, x, Height, Width)
      modifies this, board
      ensures Valid()
      ensures board.LandedFrom(old(board.grid), old(shape),
                               DropRow(old(shape), old(board.grid), old(y), old(x)), old(x),
                               old(board.score), old(board.isGameOver), this, next)
    {
      var newY := Fall(board);
      board.LandShape(this, next);
    }

    /** The loop of the hard drop: the piece moves one row down at a time for
        as long as the next row fits. It ends because every successful move
        goes one row lower and no piece fits below row 19. */
    method Fall(board: Field) returns (newY: int)
      requires board.Playable() && Valid() && Inside(shape, y, x, Height, Width)
      modifies this`x, this`y
      ensures x == old(x) && y == newY && newY == DropRow(shape, board.grid, old(y), x)
      ensures Inside(shape, y, x, Height, Width)
    {
      ghost var g, s, y0 := board.grid, shape, y;
      newY := y;
      var moved := TryMove(board, x, newY + 1);
      while moved
        invariant x == old(x)
        invariant moved == CanPlace(s, g, newY + 1, x)
        invariant y == if moved then newY + 1 else newY
        invariant newY == y0 || CanPlace(s, g, newY, x)
        invariant DropRow(s, g, y0, x) == DropRow(s, g, newY, x)
        decreases Height - newY
      {
        CanPlaceAboveFloor(s, g, newY + 1, x);
        DropRowStep(s, g, newY, x);
        newY := newY + 1;
        moved := TryMove(board, x, newY + 1);
      }
      DropRowStep(s, g, newY, x);
      if newY != y0 {
        CanPlaceInside(s, g, newY, x);
      }
    }

    /** Turns the piece a quarter clockwise and moves it to column `dx`, row
        `dy`; if the turned piece does not fit there, nothing changes. */
    method RotateShape(board: Field, dx: int, dy: int)
      requires board.Playable() && Valid()
      modifies this
      ensures Valid()
      ensures CanPlace(Rotate(old(shape)), board.grid, dy, dx) ==>
        shape == Rotate(old(shape)) && y == dy && x == dx
      ensures !CanPlace(Rotate(old(shape)), board.grid, dy, dx) ==>
        shape == old(shape) && y == old(y) && x == old(x)
    {
      var previous := shape;
      RotateKeepsShape(shape);
      shape := Rotate(shape);
      var ok := TryMove(board, dx, dy);
      if !ok {
        shape := previous;
      }
    }
  }
}
