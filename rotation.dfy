/** Clockwise rotation of a piece matrix: the rows in reverse order, then
    transposed, the way `rotate_shape` builds it. */
module Rotation {
  import opened Grid

  /** The rows of `m` from last to first (Python's `m[::-1]`). */
  function Reversed(m: Cells): (r: Cells)
    ensures |r| == |m|
    ensures forall k :: 0 <= k < |m| ==> r[k] == m[|m| - 1 - k]
  {
    if m == [] then [] else Reversed(m[1..]) + [m[0]]
  }

  /** The length of the shortest row: zipping rows stops there. */
  function ShortestRow(m: Cells): (n: nat)
    requires |m| > 0
    ensures forall i :: 0 <= i < |m| ==> n <= |m[i]|
    ensures exists i :: 0 <= i < |m| && n == |m[i]|
  {
    if |m| == 1 then |m[0]|
    else
      var rest := ShortestRow(m[1..]);
      if |m[0]| <= rest then |m[0]| else rest
  }

  /** Column `i` of `m` becomes row `i`, as zipping the rows together does:
      there are as many result rows as the shortest row has cells. */
  function Transpose(m: Cells): (t: Cells)
    requires |m| > 0
    ensures |t| == ShortestRow(m)
    ensures forall i :: 0 <= i < |t| ==> |t[i]| == |m|
    ensures forall i, j :: 0 <= i < |t| && 0 <= j < |m| ==> t[i][j] == m[j][i]
  {
    seq(ShortestRow(m), i requires 0 <= i < ShortestRow(m) =>
      seq(|m|, j requires 0 <= j < |m| => m[j][i]))
  }

  /** The piece turned a quarter clockwise: an R x C matrix becomes C x R
      and row i of the result is column i of the original read bottom-up. */
  function Rotate(m: Cells): (r: Cells)
    requires |m| > 0
    ensures forall i :: 0 <= i < |m| ==> |r| <= |m[i]|
    ensures exists i :: 0 <= i < |m| && |r| == |m[i]|
    ensures forall i :: 0 <= i < |r| ==> |r[i]| == |m|
    ensures forall i, j :: 0 <= i < |r| && 0 <= j < |m| ==> r[i][j] == m[|m| - 1 - j][i]
    ensures IsMatrix(m) ==> IsMatrix(r) && |r| == |m[0]| && |r[0]| == |m|
  {
    var v := Reversed(m);
    assert forall k :: 0 <= k < |m| ==> |v[|m| - 1 - k]| == |m[k]|;
    Transpose(v)
  }

  /** A quarter turn keeps a catalog piece a catalog piece. */
  lemma RotateKeepsShape(m: Cells)
    requires ValidShape(m)
    ensures ValidShape(Rotate(m))
  {
    var a, b :| 0 <= a < |m| && 0 <= b < |m[a]| && m[a][b] != 0;
    var r := Rotate(m);
    assert r[b][|m| - 1 - a] == m[a][b];
  }

  /** `h` is `m` turned half way round: read backwards in both directions. */
  ghost predicate HalfTurn(m: Cells, h: Cells)
    requires IsMatrix(m)
  {
    |h| == |m| &&
    forall i :: 0 <= i < |m| ==>
      |h[i]| == |m[0]| &&
      forall j :: 0 <= j < |m[0]| ==> h[i][j] == m[|m| - 1 - i][|m[0]| - 1 - j]
  }

  /** Two quarter turns are a half turn. */
  lemma RotateTwice(m: Cells)
    requires IsMatrix(m)
    ensures HalfTurn(m, Rotate(Rotate(m)))
  {
  }

  /** Two half turns give back the matrix. */
  lemma HalfTurnTwice(m: Cells, h: Cells, f: Cells)
    requires IsMatrix(m) && HalfTurn(m, h)
    requires IsMatrix(h) && HalfTurn(h, f)
    ensures f == m
  {
    forall i | 0 <= i < |m|
      ensures f[i] == m[i]
    {
      forall j | 0 <= j < |m[0]|
        ensures f[i][j] == m[i][j]
      {
        assert f[i][j] == h[|m| - 1 - i][|m[0]| - 1 - j];
      }
    }
  }

  /** Four quarter turns give back the original piece. */
  lemma RotateFourTimes(m: Cells)
    requires IsMatrix(m)
    ensures Rotate(Rotate(Rotate(Rotate(m)))) == m
  {
    var h := Rotate(Rotate(m));
    RotateTwice(m);
    RotateTwice(h);
    HalfTurnTwice(m, h, Rotate(Rotate(h)));
  }
}
