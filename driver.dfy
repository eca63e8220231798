/** The game window's use of the engine: starting a game, the timer tick and
    the key presses, reduced to which engine operation each one calls. */
module Driver {
  import opened Grid
  import opened Rotation
  import opened Placement
  import opened GameClasses

  /** The keys the window reacts to; every other key is `Other`. */
  datatype Key = Left | Right | Down | Space | Up | Other

  /** A game in progress: the board has its full size; once the first piece
      has spawned it is a catalog piece; and while the game runs the piece
      stands inside the play area on empty cells. */
  ghost predicate Session(board: Field, piece: Shape)
    reads board, piece
  {
    board.Playable() &&
    (!board.wantNewShape ==> piece.Valid()) &&
    (!board.wantNewShape && !board.isGameOver ==> CanPlace(piece.shape, board.grid, piece.y, piece.x))
  }

  /** A new 20 x 10 game with `first` as the first piece. */
  method Start(first: Cells) returns (board: Field, piece: Shape)
    requires ValidShape(first)
    ensures fresh(board) && fresh(piece) && Session(board, piece)
    ensures board.grid == Empty(Height, Width) && board.score == 0 && !board.wantNewShape
    ensures piece.shape == first && piece.y == SpawnRow && piece.x == SpawnColumn
    ensures board.isGameOver == !CanPlace(first, board.grid, SpawnRow, SpawnColumn)
  {
    board := new Field(Height, Width);
    piece := new Shape();
    piece.NewShape(board, first);
  }

  /** One timer tick: stop once the game is over, otherwise spawn a piece if
      one is wanted, otherwise move the piece down (landing it if it cannot
      move). Game over is final: a tick after it changes nothing. */
  method Tick(board: Field, piece: Shape, next: Cells) returns (running: bool)
    requires Session(board, piece) && ValidShape(next)
    modifies board, piece
    ensures Session(board, piece)
    ensures running == !old(board.isGameOver)
    ensures old(board.isGameOver) ==> unchanged(board) && unchanged(piece)
    ensures running ==> !board.wantNewShape
    // a piece is wanted: it spawns, and the board's cells and score stay
    ensures running && old(board.wantNewShape) ==>
      piece.shape == next && piece.y == SpawnRow && piece.x == SpawnColumn &&
      board.grid == old(board.grid) && board.score == old(board.score) &&
      board.isGameOver == !CanPlace(next, board.grid, SpawnRow, SpawnColumn)
    // a piece is falling: it moves one row down, or lands where it stands
    ensures running && !old(board.wantNewShape) ==>
      if old(CanPlace(piece.shape, board.grid, piece.y + 1, piece.x)) then
        piece.shape == old(piece.shape) && piece.y == old(piece.y) + 1 &&
        piece.x == old(piece.x) && unchanged(board)
      else
        board.LandedFrom(old(board.grid), old(piece.shape), old(piece.y), old(piece.x),
                         old(board.score), old(board.isGameOver), piece, next)
  {
    if board.isGameOver {
      running := false;
    } else if board.wantNewShape {
      piece.NewShape(board, next);
      running := true;
    } else {
      piece.MoveDown(board, next);
      running := true;
    }
  }

  /** One key press: left and right try a sideways move, down moves down,
      space drops, up rotates in place. Only moving down or dropping can
      change the board; after game over nothing changes. */
  method KeyPress(board: Field, piece: Shape, key: Key, next: Cells)
    requires Session(board, piece) && !board.wantNewShape && ValidShape(next)
    modifies board, piece
    ensures Session(board, piece) && !board.wantNewShape
    ensures old(board.isGameOver) ==> unchanged(board) && unchanged(piece)
    ensures !key.Down? && !key.Space? ==> unchanged(board)
    // left and right: one column over if the piece fits there, else stay
    ensures !old(board.isGameOver) && (key.Left? || key.Right?) ==>
      var dx := if key.Left? then old(piece.x) - 1 else old(piece.x) + 1;
      piece.shape == old(piece.shape) && piece.y == old(piece.y) &&
      piece.x == if CanPlace(piece.shape, board.grid, piece.y, dx) then dx else old(piece.x)
    // down: as one tick moves a falling piece
    ensures !old(board.isGameOver) && key.Down? ==>
      if old(CanPlace(piece.shape, board.grid, piece.y + 1, piece.x)) then
        piece.shape == old(piece.shape) && piece.y == old(piece.y) + 1 &&
        piece.x == old(piece.x) && unchanged(board)
      else
        board.LandedFrom(old(board.grid), old(piece.shape), old(piece.y), old(piece.x),
                         old(board.score), old(board.isGameOver), piece, next)
    // space: the piece lands on the row the hard drop reaches
    ensures !old(board.isGameOver) && key.Space? ==>
      board.LandedFrom(old(board.grid), old(piece.shape),
                       DropRow(old(piece.shape), old(board.grid), old(piece.y), old(piece.x)),
                       old(piece.x), old(board.score), old(board.isGameOver), piece, next)
    // up: turned a quarter in place if the turned piece fits, else unchanged
    ensures !old(board.isGameOver) && key.Up? ==>
      piece.y == old(piece.y) && piece.x == old(piece.x) &&
      piece.shape == if CanPlace(Rotate(old(piece.shape)), board.grid, piece.y, piece.x)
                     then Rotate(old(piece.shape)) else old(piece.shape)
    // any other key: nothing happens
    ensures key.Other? ==> unchanged(piece)
  {
    if board.isGameOver {
      return;
    }
    match key
    case Left =>
      var moved := piece.TryMove(board, piece.x - 1, piece.y);
    case Right =>
      var moved := piece.TryMove(board, piece.x + 1, piece.y);
    case Down =>
      piece.MoveDown(board, next);
    case Space =>
      piece.DropDown(board, next);
    case Up =>
      piece.RotateShape(board, piece.x, piece.y);
      var moved := piece.TryMove(board, piece.x, piece.y);
    case Other =>
  }
}
