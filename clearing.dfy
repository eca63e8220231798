/** What one call of `del_full_rows` does to the board, stated as a reference
    definition in two phases.

    The loop enumerates the list the board held when it started. The first
    full row it meets is deleted from that very list, so the enumeration
    continues over the shortened list and skips the row that followed.
    The board is then rebound to a new list (an empty row in front of the
    shortened one); every later deletion uses the enumeration index on that
    new list, where it names the row one above the full row that was seen.
    A deletion always prepends an empty row, so the board keeps its height. */
module Clearing {
  import opened Grid

  /** The board after the call and the number of rows deleted (10 points each). */
  datatype Outcome = Outcome(grid: Cells, deleted: nat)

  /** The first full row at or after `from`, or `|g|` when there is none. */
  function FirstFull(g: Cells, from: nat): (k: nat)
    requires from <= |g|
    ensures from <= k <= |g|
    ensures k < |g| ==> IsFull(g[k])
    ensures forall i :: from <= i < k ==> !IsFull(g[i])
    decreases |g| - from
  {
    if from == |g| then |g|
    else if IsFull(g[from]) then from
    else FirstFull(g, from + 1)
  }

  /** The rest of the loop once the board has been rebound: `it` is the list
      being enumerated (no longer changed), `g` the board, `y` the next index. */
  function StalePass(it: Cells, g: Cells, y: nat, cols: nat): (o: Outcome)
    requires |g| == |it| + 1
    ensures |o.grid| == |g|
    decreases |it| - y
  {
    if y >= |it| then Outcome(g, 0)
    else if IsFull(it[y]) then
      var o := StalePass(it, [Zeros(cols)] + Remove(g, y), y + 1, cols);
      Outcome(o.grid, o.deleted + 1)
    else StalePass(it, g, y + 1, cols)
  }

  /** One call of `del_full_rows` on board `g` whose rows are `cols` wide. */
  function ClearRows(g: Cells, cols: nat): (o: Outcome)
    ensures |o.grid| == |g|
  {
    var k := FirstFull(g, 0);
    if k == |g| then Outcome(g, 0)
    else
      var rest := Remove(g, k);
      var tail := StalePass(rest, [Zeros(cols)] + rest, k + 1, cols);
      Outcome(tail.grid, tail.deleted + 1)
  }

  lemma {:induction false} StalePassShape(it: Cells, g: Cells, y: nat, cols: nat)
    requires |g| == |it| + 1 && Rectangular(g, |g|, cols)
    ensures Rectangular(StalePass(it, g, y, cols).grid, |g|, cols)
    decreases |it| - y
  {
    if y < |it| {
      if IsFull(it[y]) {
        StalePassShape(it, [Zeros(cols)] + Remove(g, y), y + 1, cols);
      } else {
        StalePassShape(it, g, y + 1, cols);
      }
    }
  }

  /** The board keeps its height and its width. */
  lemma ClearRowsShape(g: Cells, rows: nat, cols: nat)
    requires Rectangular(g, rows, cols)
    ensures Rectangular(ClearRows(g, cols).grid, rows, cols)
  {
    var k := FirstFull(g, 0);
    if k < |g| {
      var rest := Remove(g, k);
      StalePassShape(rest, [Zeros(cols)] + rest, k + 1, cols);
    }
  }

  /** Enumerating rows that are not full deletes nothing. */
  lemma {:induction false} StalePassSkip(it: Cells, g: Cells, y: nat, z: nat, cols: nat)
    requires |g| == |it| + 1 && y <= z <= |it|
    requires forall i :: y <= i < z ==> !IsFull(it[i])
    ensures StalePass(it, g, y, cols) == StalePass(it, g, z, cols)
    decreases z - y
  {
    if y < z {
      StalePassSkip(it, g, y + 1, z, cols);
    }
  }

  lemma StalePassIdle(it: Cells, g: Cells, y: nat, cols: nat)
    requires |g| == |it| + 1
    requires forall i :: y <= i < |it| ==> !IsFull(it[i])
    ensures StalePass(it, g, y, cols) == Outcome(g, 0)
  {
    if y < |it| {
      StalePassSkip(it, g, y, |it|, cols);
    }
  }

  /** Rows are deleted exactly when some row is full; with none, the board is
      returned as it was. */
  lemma ClearRowsNothingFull(g: Cells, cols: nat)
    ensures ClearRows(g, cols).deleted == 0 <==> forall i :: 0 <= i < |g| ==> !IsFull(g[i])
    ensures (forall i :: 0 <= i < |g| ==> !IsFull(g[i])) ==> ClearRows(g, cols) == Outcome(g, 0)
  {
  }

  /** A single full row at `k` is deleted: the rows below it stay where they
      are, the rows above it move down one, and an empty row comes in on top. */
  lemma ClearRowsSingle(g: Cells, k: nat, cols: nat)
    requires k < |g| && IsFull(g[k])
    requires forall i :: 0 <= i < |g| && i != k ==> !IsFull(g[i])
    ensures ClearRows(g, cols) == Outcome([Zeros(cols)] + g[..k] + g[k + 1..], 1)
  {
    assert FirstFull(g, 0) == k;
    var rest := Remove(g, k);
    StalePassIdle(rest, [Zeros(cols)] + rest, k + 1, cols);
    assert [Zeros(cols)] + rest == [Zeros(cols)] + g[..k] + g[k + 1..];
  }

  /** Two adjacent full rows: only the upper one is deleted, because the
      deletion shifts the lower one into the index the loop has just passed.
      The lower row stays on the board, full. */
  lemma ClearRowsAdjacent(g: Cells, k: nat, cols: nat)
    requires k + 1 < |g| && IsFull(g[k]) && IsFull(g[k + 1])
    requires forall i :: 0 <= i < |g| && i != k && i != k + 1 ==> !IsFull(g[i])
    ensures ClearRows(g, cols) == Outcome([Zeros(cols)] + g[..k] + g[k + 1..], 1)
    ensures IsFull(ClearRows(g, cols).grid[k + 1])
  {
    assert FirstFull(g, 0) == k;
    var rest := Remove(g, k);
    StalePassIdle(rest, [Zeros(cols)] + rest, k + 1, cols);
    assert [Zeros(cols)] + rest == [Zeros(cols)] + g[..k] + g[k + 1..];
  }

  /** Two full rows `j` and `k` further apart: row `j` is deleted, and when
      the loop reaches row `k` it deletes by a stale index, taking row `k - 1`
      (not full) and leaving the full row `k` on the board. */
  lemma ClearRowsApart(g: Cells, j: nat, k: nat, cols: nat)
    requires j + 1 < k < |g| && IsFull(g[j]) && IsFull(g[k])
    requires forall i :: 0 <= i < |g| && i != j && i != k ==> !IsFull(g[i])
    ensures ClearRows(g, cols) ==
      Outcome([Zeros(cols), Zeros(cols)] + g[..j] + g[j + 1..k - 1] + g[k..], 2)
  {
    var z := Zeros(cols);
    assert FirstFull(g, 0) == j;
    var rest := Remove(g, j);
    var g1 := [z] + rest;
    StalePassSkip(rest, g1, j + 1, k - 1, cols);
    assert IsFull(rest[k - 1]);
    var g2 := [z] + Remove(g1, k - 1);
    StalePassIdle(rest, g2, k, cols);
    assert StalePass(rest, g1, k - 1, cols) == Outcome(g2, 1);
    var want := [z, z] + g[..j] + g[j + 1..k - 1] + g[k..];
    assert |g2| == |want|;
    forall i | 0 <= i < |g2|
      ensures g2[i] == want[i]
    {
      if i < 2 {
      } else if i < j + 2 {
        assert want[i] == g[i - 2];
      } else if i < k {
        assert want[i] == g[i - 1];
      } else {
        assert want[i] == g[i];
      }
    }
  }

  lemma {:induction false} StalePassTop(it: Cells, g: Cells, y: nat, m: nat, cols: nat)
    requires |g| == |it| + 1 && m <= y && m <= |g|
    requires forall i :: 0 <= i < m ==> g[i] == Zeros(cols)
    ensures m + StalePass(it, g, y, cols).deleted <= |g|
    ensures forall i :: 0 <= i < m + StalePass(it, g, y, cols).deleted ==>
      StalePass(it, g, y, cols).grid[i] == Zeros(cols)
    decreases |it| - y
  {
    if y < |it| {
      if IsFull(it[y]) {
        var g' := [Zeros(cols)] + Remove(g, y);
        assert forall i :: 1 <= i < m + 1 ==> g'[i] == g[i - 1];
        StalePassTop(it, g', y + 1, m + 1, cols);
      } else {
        StalePassTop(it, g, y + 1, m, cols);
      }
    }
  }

  /** Each deletion puts one empty row on top: after `n` deletions the top
      `n` rows of the board are empty. */
  lemma ClearRowsTopEmpty(g: Cells, cols: nat)
    ensures ClearRows(g, cols).deleted <= |g|
    ensures forall i :: 0 <= i < ClearRows(g, cols).deleted ==>
      ClearRows(g, cols).grid[i] == Zeros(cols)
  {
    var k := FirstFull(g, 0);
    if k < |g| {
      var rest := Remove(g, k);
      StalePassTop(rest, [Zeros(cols)] + rest, k + 1, 1, cols);
    }
  }
}
