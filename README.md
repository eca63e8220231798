# Pentix game engine in Dafny

A model of the falling-block game engine in `game_classes.py`. It has two
classes. `Field` is the board: a `rows` x `columns` grid of int cells (0 means
empty), the score, and the flags `want_new_shape` and `is_game_over`. `Shape`
is the falling piece: a cell matrix and the board position of its top-left
corner, row `y` and column `x`.

The Dafny project keeps that shape. `GameClasses.Field` and
`GameClasses.Shape` are classes whose methods update their fields; the
grid is a `seq<seq<int>>` field that the methods reassign. Each method is
proved against a pure definition:

- `Placement.CanPlace` is the collision check. Every occupied piece cell must
  fall inside the literal 20 x 10 area and on an empty cell.
- `Placement.Fuse` is the board after a piece is written into it.
- `Placement.DropRow` is the row a hard drop lands on.
- `Rotation.Rotate` is the quarter turn clockwise: the rows reversed, then
  transposed.
- `Clearing.ClearRows` is what one call of `del_full_rows` does.

Lemmas then state what the game promises about these definitions.
The loop of `drop_down` is its own method, `Shape.Fall`, which `DropDown`
calls before landing.

`Driver` reduces the game window (`main.py`) to the engine calls it makes.
`Scenarios` replays the unit tests in `tests.py` as client code.

Behaviour kept as the code has it:

- **Row clearing is a single pass with stale indices.** `del_full_rows`
  enumerates the list the board held when the call began. The first full
  row is deleted from that same list, so the enumeration skips the row that
  followed it. The board is then rebound to a new list. Each later deletion
  uses the enumeration index on that new list, which names the row one
  above the full row that was seen. The results:
  - Two adjacent full rows: only the upper one is deleted (`ClearRowsAdjacent`).
  - Full rows 10 and 15: rows 10 and 14 are deleted, and row 15 stays (`ClearRowsApart`).
  - The board always keeps its height, and every deletion scores 10.
- **Landing writes the piece's own cell values**, not a colour constant.
  It always spawns the next piece, because clearing always sets
  `want_new_shape`.
- **Coordinates are consistent.** `try_move(board, dx, dy)` takes a column
  and then a row at every call site, and the model does the same.
- **The collision check uses the literal bounds 20 and 10**, not the
  board's `rows` and `columns`. The piece's methods therefore require a
  board of at least that size.

## Model

| member | source | states |
|---|---|---|
| `Grid.Empty` | game_classes.py:11 | a new grid has exactly `rows` rows, each `columns` empty cells |
| `Grid.Zeros` | game_classes.py:34 | `[0] * columns` (also line 11): exactly `columns` cells, all empty |
| `Grid.IsFull` | game_classes.py:32 | `0 not in row`: the row is full exactly when every one of its cells is nonzero |
| `Grid.Remove` | game_classes.py:33 | `del grid[y]`: one row shorter; rows before `y` keep their index, rows after it move up one |
| `Rotation.Reversed` | game_classes.py:79 | `shape[::-1]`: same length, row k of the result is row `len-1-k` of the input |
| `Rotation.ShortestRow` | game_classes.py:79 | zipping the rows stops at the shortest row: the length is at most every row's and equals some row's |
| `Rotation.Transpose` | game_classes.py:79 | zipping the rows: as many result rows as the shortest row has cells, each as long as the matrix is tall, with `t[i][j] == m[j][i]` |
| `Rotation.Rotate` | game_classes.py:79 | an R x C matrix becomes C x R with `new[i][j] == old[R-1-j][i]` (quarter turn clockwise) |
| `Rotation.RotateKeepsShape` | game_classes.py:76-81 | a rotated catalog piece is still nonempty, rectangular and has an occupied cell |
| `Rotation.RotateTwice` | game_classes.py:79 | two quarter turns are a half turn: the matrix read backwards in both directions |
| `Rotation.HalfTurnTwice` | game_classes.py:79 | a half turn of a half turn is the matrix itself |
| `Rotation.RotateFourTimes` | game_classes.py:79 | four quarter turns give back the original matrix |
| `Placement.CanPlace` | game_classes.py:53-61 | the collision check as a definition: every occupied piece cell lies in the 20 x 10 area over an empty board cell; `Shape.TryMove`'s result is proved equal to it |
| `Placement.CanPlaceInside` | game_classes.py:56 | a placement that passes the check lies inside the 20 x 10 area |
| `Placement.CanPlaceAboveFloor` | game_classes.py:56 | a piece with an occupied cell passes the check only at a row offset below 20 |
| `Placement.EmptyFits` | game_classes.py:53-61 | on an empty board the check passes wherever the whole matrix lies inside the 20 x 10 area |
| `Placement.Fuse` | game_classes.py:19-22 | landing keeps the board's dimensions |
| `Placement.FuseCopiesShape` | game_classes.py:19-22 | every occupied piece cell `shape[a][b]` is copied to `grid[y+a][x+b]`; every other cell is unchanged |
| `Placement.FuseKeepsOccupied` | game_classes.py:17-22 | landing where the check passes never overwrites an occupied cell; every cell it changes was empty and lies under an occupied piece cell |
| `Placement.FuseStep` | game_classes.py:19-22 | one step of the inner loop writes piece cell (y, x) when it is occupied, and nothing else |
| `Placement.FuseRowDone` | game_classes.py:19-20 | finishing a piece row moves progress on to the next row |
| `Placement.FuseDone` | game_classes.py:19-22 | once both loops finish, the grid is exactly the fused board |
| `Placement.DropRow` | game_classes.py:70-73 | the row the drop loop stops at; it is never above the starting row |
| `Placement.DropRowStep` | game_classes.py:72-73 | if the next row fits, the drop goes on from there; otherwise it ends at the current row |
| `Placement.DropRowLands` | game_classes.py:68-74 | every row the drop passes, and the row it lands on, passes the check; one row further down does not |
| `Clearing.FirstFull` | game_classes.py:31-32 | the first row with no empty cell: every earlier row has an empty cell |
| `Clearing.StalePass` | game_classes.py:31-35 | after the board is rebound, the loop keeps the board's height |
| `Clearing.ClearRows` | game_classes.py:29-35 | one call keeps the board's height |
| `Clearing.StalePassShape` | game_classes.py:33-34 | stale-index deletions keep every row `columns` wide |
| `Clearing.ClearRowsShape` | game_classes.py:29-35 | the grid keeps exactly `rows` rows of `columns` cells |
| `Clearing.StalePassSkip` | game_classes.py:31-32 | enumerating rows that are not full deletes nothing |
| `Clearing.StalePassIdle` | game_classes.py:31-32 | with no full row left to enumerate, the board and the count stay as they are |
| `Clearing.ClearRowsNothingFull` | game_classes.py:31-35 | rows are deleted exactly when some row is full; with none, grid and count are unchanged |
| `Clearing.ClearRowsSingle` | game_classes.py:31-35 | one full row k: the result is an empty row, then rows above k, then rows below k; one deletion |
| `Clearing.ClearRowsAdjacent` | game_classes.py:31-35 | two adjacent full rows: only the upper one is deleted; the lower one stays full |
| `Clearing.ClearRowsApart` | game_classes.py:31-35 | full rows j and k with j+1 < k: rows j and k-1 are deleted, and full row k stays; two deletions |
| `Clearing.StalePassTop` | game_classes.py:33-34 | each stale-index deletion leaves the empty rows on top in place and adds one |
| `Clearing.ClearRowsTopEmpty` | game_classes.py:33-35 | after n deletions the top n rows are empty |
| `GameClasses.Field.constructor` | game_classes.py:7-15 | empty grid of the given size, score 0, a new piece wanted, game not over |
| `GameClasses.Field.LandShape` | game_classes.py:17-27 | the grid becomes the piece fused in and cleared; score rises by 10 per deletion; the next piece spawns at (0, 4); game over is set exactly when it does not fit and is never reset |
| `GameClasses.Field.DelFullRows` | game_classes.py:29-36 | grid and score follow `ClearRows` (10 per deletion); the grid stays `rows` x `columns`; `want_new_shape` is set |
| `GameClasses.Shape.constructor` | main.py:78 | `Shape()`: a piece with no cells yet, at (0, 0), before `new_shape` gives it one |
| `GameClasses.Shape.NewShape` | game_classes.py:40-48 | the piece is the given one at (0, 4); `want_new_shape` is cleared; game over is set exactly when it does not fit there and is never reset |
| `GameClasses.Shape.TryMove` | game_classes.py:50-61 | result iff every occupied cell is in the 20 x 10 area on an empty cell; on success the position is (dy, dx), otherwise unchanged; the board is never written |
| `GameClasses.Shape.MoveDown` | game_classes.py:63-66 | either one row down, same column, board unchanged; or landed where it stood |
| `GameClasses.Shape.DropDown` | game_classes.py:68-74 | lands the piece at `DropRow`: the last row from which one row further fails the check |
| `GameClasses.Shape.Fall` | game_classes.py:70-73 | the drop loop terminates with the piece at `DropRow`, same column, still inside the area |
| `GameClasses.Shape.RotateShape` | game_classes.py:76-81 | if the turned piece fits at (dy, dx) it is turned and moved there; otherwise shape and position are exactly as before |
| `Driver.Start` | main.py:75-79 | a new game on an empty 20 x 10 board with the first piece spawned; game over iff it does not fit |
| `Driver.Tick` | main.py:83-95 | after game over nothing changes and the tick reports stopped; when a piece is wanted it spawns at (0, 4), the board keeps its cells and score, and game over is set iff it does not fit; otherwise the piece moves one row down when that fits (board unchanged) or lands where it stands; the game invariant holds throughout |
| `Driver.KeyPress` | main.py:129-154 | after game over nothing changes; left and right move one column over iff the piece fits there; down moves one row down or lands, as a tick does; space lands the piece at `DropRow`; up turns the piece a quarter in place iff the turned piece fits; any other key changes nothing; only down and space can change the board; the game invariant holds throughout |
| `Scenarios.SpawnThenMoveDown` | tests.py:26-31 | a fresh piece on an empty board moves down to (1, 4) |
| `Scenarios.SpawnThenLand` | tests.py:20-24 | after landing a fresh piece, cell (0, 4) holds the piece's top-left cell |
| `Scenarios.SpawnThenTryMove` | tests.py:33-42 | moving a fresh piece to column 5, row 15 succeeds and the board stays empty |
| `Scenarios.ClearTheOnlyFullRow` | tests.py:10-18 | full row 18 is deleted: row 17 moves to 18, row 19 stays, score 10 |

## Left out

- The game window in `main.py`: Qt widgets, the timer, painting, status-bar
  messages and the key-event plumbing. Only the choice of engine call on
  start, on a tick and on a key press is kept, in `Driver`.
- `Driver.Tick`: leaves out the status-bar line main.py:86, and `Driver.Start`
  leaves out main.py:80. Both read `cnt_full_rows`, which `Field` does not
  define. As written, `start()` raises AttributeError right after the first
  spawn, so the timer never starts, and every tick would raise before the
  dispatch on lines 87-95. The model follows the engine calls as if those
  two lines were absent.
- The random choice of the next piece and the `shapes` catalog: `shapes` is
  not part of this model. The chosen matrix is an argument. It is assumed
  to be like a catalog piece: nonempty, rectangular, with an occupied cell.
- The colours `grid_color` and `shape_color`. They are only used for drawing.
- High-score storage and player names. No such code is in the engine.
- `GameClasses.Field.constructor`: takes natural dimensions. Python would build
  an empty grid from negative ones.
- `GameClasses.Shape.constructor`: the Python piece has no attributes until
  `new_shape` runs. The model starts it as an empty matrix at (0, 0).
- `GameClasses.Field.LandShape`: requires the piece inside the board. Python
  raises on an index past the end and wraps a negative index to the other
  end of the list. Neither happens to a piece placed by `try_move`.
- `GameClasses.Shape.DropDown`: requires a piece with an occupied cell. On an
  all-empty matrix the Python loop would never end.
- The piece's methods require a board of at least 20 x 10, because the
  collision check indexes that area whatever the board's size. On a smaller
  board Python would raise an index error.
