/** Fixed geometry of the breakout playfield: paddle, ball and the brick grid.

    Bricks are addressed either by (column, row) or by a single cell index
    `k == c * Rows + r`, which enumerates the grid in the order the game's
    nested loops visit it (columns outer, rows inner). */
module Layout {

  const PaddleWidth: real := 75.0
  const BallRadius: real := 8.0
  /** Distance the paddle travels per frame while an arrow key is held. */
  const PaddleStep: real := 7.0
  /** Magnitude of both velocity components at start and after every reset. */
  const Speed: real := 2.0

  const Rows: nat := 3
  const Cols: nat := 5
  /** Number of bricks, written out as a literal; `GridSize` ties it to the
      grid's dimensions. */
  const Cells: nat := 15

  const BrickWidth: real := 75.0
  const BrickHeight: real := 20.0
  const BrickPadding: real := 10.0
  const BrickOffsetTop: real := 30.0
  const BrickOffsetLeft: real := 30.0

  lemma GridSize()
    ensures Cells == Rows * Cols
  {
  }

  /** Left edge of every brick in column `c`. */
  function BrickX(c: nat): real {
    (c as real) * (BrickWidth + BrickPadding) + BrickOffsetLeft
  }

  /** Top edge of every brick in row `r`. */
  function BrickY(r: nat): real {
    (r as real) * (BrickHeight + BrickPadding) + BrickOffsetTop
  }

  /** The point (x, y) lies strictly inside the rectangle of brick (c, r);
      a point on an edge is not inside. */
  predicate Inside(x: real, y: real, c: nat, r: nat) {
    && x > BrickX(c)
    && x < BrickX(c) + BrickWidth
    && y > BrickY(r)
    && y < BrickY(r) + BrickHeight
  }

  /** Column of cell index `k`. */
  function Col(k: nat): nat {
    k / Rows
  }

  /** Row of cell index `k`. */
  function Row(k: nat): nat {
    k % Rows
  }

  /** The cell index of (c, r) lies in the grid and maps back to (c, r). */
  lemma CellOf(c: nat, r: nat)
    requires c < Cols && r < Rows
    ensures c * Rows + r < Cells
    ensures Col(c * Rows + r) == c && Row(c * Rows + r) == r
  {
  }

  /** Every cell index in the grid names a column and a row of the grid, and
      two different cell indices name different bricks. */
  lemma CellsDistinct(j: nat, k: nat)
    requires j < Cells && k < Cells
    ensures Col(j) < Cols && Row(j) < Rows
    ensures Col(j) == Col(k) && Row(j) == Row(k) ==> j == k
  {
  }

  /** Brick (c, r) occupies the open rectangle whose corner is
      (85c + 30, 30r + 30) and whose size is 75 by 20. */
  lemma BrickRect(x: real, y: real, c: nat, r: nat)
    ensures Inside(x, y, c, r) <==>
              && 85.0 * (c as real) + 30.0 < x < 85.0 * (c as real) + 105.0
              && 30.0 * (r as real) + 30.0 < y < 30.0 * (r as real) + 50.0
  {
  }

  /** No point lies inside two different bricks: the rectangles are pairwise
      disjoint, so one ball centre can hit at most one brick. */
  lemma BricksDisjoint(x: real, y: real, c1: nat, r1: nat, c2: nat, r2: nat)
    requires Inside(x, y, c1, r1) && Inside(x, y, c2, r2)
    ensures c1 == c2 && r1 == r2
  {
  }
}
