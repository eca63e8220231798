/** Cell matrices shared by the board and the falling piece.
    A cell holds an int; 0 means empty, anything else is occupied. */
module Grid {

  type Row = seq<int>
  type Cells = seq<Row>

  /** The collision check uses these literal bounds, whatever the board's own size. */
  const Height: nat := 20
  const Width: nat := 10

  /** The spawn offset (row, column) of a new piece. */
  const SpawnRow: int := 0
  const SpawnColumn: int := 4

  /** A row of `n` empty cells. */
  function Zeros(n: nat): (r: Row)
    ensures |r| == n && forall j :: 0 <= j < n ==> r[j] == 0
  {
    seq(n, _ => 0)
  }

  /** A row is full when it holds no empty cell. */
  predicate IsFull(row: Row): (full: bool)
    ensures full <==> forall j :: 0 <= j < |row| ==> row[j] != 0
  {
    0 !in row
  }

  /** `g` has exactly `rows` rows of `cols` cells each. */
  predicate Rectangular(g: Cells, rows: nat, cols: nat)
  {
    |g| == rows && forall i :: 0 <= i < |g| ==> |g[i]| == cols
  }

  /** `g` is at least as large as the area the collision check indexes. */
  predicate Spans(g: Cells)
  {
    |g| >= Height && forall i :: 0 <= i < |g| ==> |g[i]| >= Width
  }

  /** A board of `rows` empty rows. */
  function Empty(rows: nat, cols: nat): (g: Cells)
    ensures Rectangular(g, rows, cols)
    ensures forall i :: 0 <= i < rows ==> g[i] == Zeros(cols)
  {
    seq(rows, _ => Zeros(cols))
  }

  /** A piece matrix: at least one row, all rows of the same nonzero length. */
  predicate IsMatrix(m: Cells)
  {
    |m| > 0 && |m[0]| > 0 && forall i :: 0 <= i < |m| ==> |m[i]| == |m[0]|
  }

  /** The matrix has at least one occupied cell. */
  predicate HasCell(m: Cells)
  {
    exists i, j :: 0 <= i < |m| && 0 <= j < |m[i]| && m[i][j] != 0
  }

  /** What a piece drawn from the catalog looks like. */
  predicate ValidShape(m: Cells)
  {
    IsMatrix(m) && HasCell(m)
  }

  /** The list with the entry at `k` deleted (Python's `del g[k]`). */
  function Remove(g: Cells, k: nat): (r: Cells)
    requires k < |g|
    ensures |r| == |g| - 1
    ensures forall i :: 0 <= i < k ==> r[i] == g[i]
    ensures forall i :: k <= i < |r| ==> r[i] == g[i + 1]
  {
    g[..k] + g[k + 1..]
  }
}
