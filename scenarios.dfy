/** The cases the repository's unit tests check, as client code that builds
    a 20 x 10 board and calls the engine. */
module Scenarios {
  import opened Grid
  import opened Placement
  import opened Clearing
  import opened GameClasses

  /** A piece spawned on an empty board (small enough to fit below the spawn
      row) moves down one row without landing. */
  method SpawnThenMoveDown(s: Cells, next: Cells) returns (y: int, x: int)
    requires ValidShape(s) && ValidShape(next)
    requires |s| < Height && SpawnColumn + |s[0]| <= Width
    ensures y == 1 && x == 4
  {
    var board := new Field(Height, Width);
    var piece := new Shape();
    EmptyFits(s, SpawnRow, SpawnColumn);
    EmptyFits(s, SpawnRow + 1, SpawnColumn);
    piece.NewShape(board, s);
    piece.MoveDown(board, next);
    y, x := piece.y, piece.x;
  }

  /** Landing a freshly spawned piece on an empty board puts its top-left
      cell at row 0, column 4. */
  method SpawnThenLand(s: Cells, next: Cells) returns (cell: int)
    requires ValidShape(s) && ValidShape(next)
    requires |s| <= Height && SpawnColumn + |s[0]| <= Width
    ensures cell == s[0][0]
  {
    var board := new Field(Height, Width);
    var piece := new Shape();
    EmptyFits(s, SpawnRow, SpawnColumn);
    piece.NewShape(board, s);
    ghost var fused := Fuse(Empty(Height, Width), s, SpawnRow, SpawnColumn);
    // column 0 lies left of the piece, so no row of the fused board is full
    forall i | 0 <= i < |fused|
      ensures !IsFull(fused[i])
    {
      assert fused[i][0] == 0;
    }
    ClearRowsNothingFull(fused, Width);
    board.LandShape(piece, next);
    cell := board.grid[0][4];
  }

  /** Moving a freshly spawned piece to column 5, row 15 of an empty board
      succeeds and leaves the board empty. */
  method SpawnThenTryMove(s: Cells) returns (y: int, x: int, ok: bool, g: Cells)
    requires ValidShape(s)
    requires |s| <= 5 && |s[0]| <= 5
    ensures ok && y == 15 && x == 5
    ensures g == Empty(Height, Width)
  {
    var board := new Field(Height, Width);
    var piece := new Shape();
    piece.NewShape(board, s);
    EmptyFits(s, 15, 5);
    ok := piece.TryMove(board, 5, 15);
    y, x, g := piece.y, piece.x, board.grid;
  }

  /** Row 18 full between two half-full rows: it is deleted, row 17 moves
      down into its place, row 19 stays, and the score is 10. */
  method ClearTheOnlyFullRow() returns (row18: Row, row19: Row, score: nat)
    ensures row18 == [0, 0, 0, 0, 0, 1, 1, 1, 1, 1]
    ensures row19 == [1, 1, 1, 1, 1, 0, 0, 0, 0, 0]
    ensures score == 10
  {
    var board := new Field(Height, Width);
    var left: Row := [1, 1, 1, 1, 1, 0, 0, 0, 0, 0];
    var right: Row := [0, 0, 0, 0, 0, 1, 1, 1, 1, 1];
    var full: Row := [1, 1, 1, 1, 1, 1, 1, 1, 1, 1];
    board.grid := board.grid[19 := left][18 := full][17 := right];
    ghost var g := board.grid;
    forall i | 0 <= i < |g| && i != 18
      ensures !IsFull(g[i])
    {
      assert g[i][0] == 0 || g[i][9] == 0;
    }
    ClearRowsSingle(g, 18, Width);
    board.DelFullRows();
    row18, row19, score := board.grid[18], board.grid[19], board.score;
  }
}
