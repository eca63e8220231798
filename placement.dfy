/** Where a piece may stand on the board, what landing it writes, and how far
    a hard drop falls. */
module Placement {
  import opened Grid

  /** Cell (a, b) of the piece matrix exists and is occupied. */
  predicate Covers(s: Cells, a: int, b: int)
  {
    0 <= a < |s| && 0 <= b < |s[a]| && s[a][b] != 0
  }

  /** With its origin at row `py`, column `px`, every occupied cell of `s`
      lies inside a `rows` x `cols` area. */
  predicate Inside(s: Cells, py: int, px: int, rows: int, cols: int)
  {
    forall a, b :: 0 <= a < |s| && 0 <= b < |s[a]| && s[a][b] != 0 ==>
      0 <= a + py < rows && 0 <= b + px < cols
  }

  /** The collision check: with its origin at row `dy`, column `dx`, every
      occupied cell of `s` is inside the 20 x 10 play area and over an empty
      cell of `g`. */
  predicate CanPlace(s: Cells, g: Cells, dy: int, dx: int)
    requires Spans(g)
  {
    forall a, b :: 0 <= a < |s| && 0 <= b < |s[a]| && s[a][b] != 0 ==>
      0 <= b + dx < Width && 0 <= a + dy < Height && g[a + dy][b + dx] == 0
  }

  /** A placement that passes the collision check is inside the play area. */
  lemma CanPlaceInside(s: Cells, g: Cells, dy: int, dx: int)
    requires Spans(g)
    requires CanPlace(s, g, dy, dx)
    ensures Inside(s, dy, dx, Height, Width)
  {
  }

  /** A piece with an occupied cell passes the check only above the floor,
      so a piece cannot move down forever. */
  lemma CanPlaceAboveFloor(s: Cells, g: Cells, dy: int, dx: int)
    requires Spans(g) && HasCell(s)
    requires CanPlace(s, g, dy, dx)
    ensures dy < Height
  {
  }

  /** On an empty board a piece fits wherever its whole matrix lies inside
      the play area. */
  lemma EmptyFits(s: Cells, dy: int, dx: int)
    requires IsMatrix(s)
    requires 0 <= dy && dy + |s| <= Height && 0 <= dx && dx + |s[0]| <= Width
    ensures CanPlace(s, Empty(Height, Width), dy, dx)
  {
  }

  /** The board after landing: every occupied piece cell is written into the
      board at the piece's offset; every other board cell keeps its value. */
  function Fuse(g: Cells, s: Cells, py: int, px: int): (r: Cells)
    ensures |r| == |g| && forall i :: 0 <= i < |g| ==> |r[i]| == |g[i]|
  {
    seq(|g|, i requires 0 <= i < |g| =>
      seq(|g[i]|, j requires 0 <= j < |g[i]| =>
        if Covers(s, i - py, j - px) then s[i - py][j - px] else g[i][j]))
  }

  /** Landing copies each occupied piece cell to its place on the board and
      leaves every cell the piece does not cover as it was. */
  lemma FuseCopiesShape(g: Cells, s: Cells, py: int, px: int, rows: nat, cols: nat)
    requires Rectangular(g, rows, cols) && Inside(s, py, px, rows, cols)
    ensures Rectangular(Fuse(g, s, py, px), rows, cols)
    ensures forall a, b :: Covers(s, a, b) ==> Fuse(g, s, py, px)[a + py][b + px] == s[a][b]
    ensures forall i, j :: 0 <= i < rows && 0 <= j < cols && !Covers(s, i - py, j - px) ==>
      Fuse(g, s, py, px)[i][j] == g[i][j]
  {
  }

  /** Landing a piece where the collision check passes never overwrites an
      occupied board cell: every cell it changes was empty and lies under an
      occupied piece cell. */
  lemma FuseKeepsOccupied(g: Cells, s: Cells, py: int, px: int)
    requires Spans(g) && CanPlace(s, g, py, px)
    ensures forall i, j :: 0 <= i < |g| && 0 <= j < |g[i]| && g[i][j] != 0 ==>
      Fuse(g, s, py, px)[i][j] == g[i][j]
    ensures forall i, j :: 0 <= i < |g| && 0 <= j < |g[i]| && Fuse(g, s, py, px)[i][j] != g[i][j] ==>
      g[i][j] == 0 && Covers(s, i - py, j - px)
  {
    var r := Fuse(g, s, py, px);
    forall i, j | 0 <= i < |g| && 0 <= j < |g[i]| && g[i][j] != 0
      ensures r[i][j] == g[i][j]
    {
      if Covers(s, i - py, j - px) {
        assert false;
      }
    }
  }

  /** Progress of landing's two loops, which walk the piece row by row: the
      occupied cells of rows before `y`, and of row `y` before column `x`,
      have been written into `cur`; every other cell is still that of `g`. */
  ghost predicate FusedUpTo(cur: Cells, g: Cells, s: Cells, py: int, px: int, y: int, x: int)
  {
    |cur| == |g| &&
    forall i :: 0 <= i < |g| ==>
      |cur[i]| == |g[i]| &&
      forall j :: 0 <= j < |g[i]| ==>
        cur[i][j] == if Covers(s, i - py, j - px) && (i - py < y || (i - py == y && j - px < x))
                     then s[i - py][j - px] else g[i][j]
  }

  /** One step of the inner loop: cell (y, x) of the piece is written if occupied. */
  lemma FuseStep(cur: Cells, g: Cells, s: Cells, py: int, px: int, y: nat, x: nat, rows: nat, cols: nat)
    requires Rectangular(g, rows, cols) && Inside(s, py, px, rows, cols)
    requires y < |s| && x < |s[y]| && FusedUpTo(cur, g, s, py, px, y, x)
    ensures s[y][x] != 0 ==> 0 <= y + py < |cur| && 0 <= x + px < |cur[y + py]|
    ensures s[y][x] != 0 ==>
      FusedUpTo(cur[y + py := cur[y + py][x + px := s[y][x]]], g, s, py, px, y, x + 1)
    ensures s[y][x] == 0 ==> FusedUpTo(cur, g, s, py, px, y, x + 1)
  {
  }

  /** The inner loop has walked a whole piece row. */
  lemma FuseRowDone(cur: Cells, g: Cells, s: Cells, py: int, px: int, y: nat)
    requires y < |s| && FusedUpTo(cur, g, s, py, px, y, |s[y]|)
    ensures FusedUpTo(cur, g, s, py, px, y + 1, 0)
  {
  }

  /** Both loops are done: the board is the landed board. */
  lemma FuseDone(cur: Cells, g: Cells, s: Cells, py: int, px: int)
    requires FusedUpTo(cur, g, s, py, px, |s|, 0)
    ensures cur == Fuse(g, s, py, px)
  {
    var r := Fuse(g, s, py, px);
    forall i | 0 <= i < |g|
      ensures cur[i] == r[i]
    {
      assert |cur[i]| == |r[i]|;
      forall j | 0 <= j < |g[i]|
        ensures cur[i][j] == r[i][j]
      {
      }
    }
  }

  /** The row a hard drop from row `y` lands on: the piece keeps moving one
      row down while the collision check passes there, so it never lands
      above `y`. */
  function DropRow(s: Cells, g: Cells, y: int, x: int): (r: int)
    requires Spans(g) && HasCell(s)
    ensures y <= r
    decreases Height - y
  {
    if CanPlace(s, g, y + 1, x) then
      CanPlaceAboveFloor(s, g, y + 1, x);
      DropRow(s, g, y + 1, x)
    else y
  }

  /** One row of the drop: where the next row fits the drop goes on from
      there, and where it does not the drop ends here. */
  lemma DropRowStep(s: Cells, g: Cells, y: int, x: int)
    requires Spans(g) && HasCell(s)
    ensures CanPlace(s, g, y + 1, x) ==> DropRow(s, g, y, x) == DropRow(s, g, y + 1, x)
    ensures !CanPlace(s, g, y + 1, x) ==> DropRow(s, g, y, x) == y
  {
  }

  /** Every row the drop passes on the way (and the landing row) passes the
      check, and one row further down does not. */
  lemma {:induction false} DropRowLands(s: Cells, g: Cells, y: int, x: int)
    requires Spans(g) && HasCell(s)
    ensures !CanPlace(s, g, DropRow(s, g, y, x) + 1, x)
    ensures forall r :: y < r <= DropRow(s, g, y, x) ==> CanPlace(s, g, r, x)
    decreases Height - y
  {
    if CanPlace(s, g, y + 1, x) {
      CanPlaceAboveFloor(s, g, y + 1, x);
      DropRowLands(s, g, y + 1, x);
    }
  }
}
