/** The world state of one game: ball, paddle, brick grid, score and the
    game-over flag, together with the start state, the reset transition and
    the invariant every reachable state keeps. */
module World {
  import opened Layout

  /** A 5-column by 3-row grid of brick visibility flags, indexed
      `g[column][row]`; `true` means the brick is still standing. */
  type Grid = g: seq<seq<bool>> | IsGrid(g)
    witness [[true, true, true], [true, true, true], [true, true, true],
             [true, true, true], [true, true, true]]

  predicate IsGrid(g: seq<seq<bool>>) {
    |g| == Cols && forall c :: 0 <= c < |g| ==> |g[c]| == Rows
  }

  /** Size of the canvas. The game reads it but never changes it. */
  datatype Field = Field(width: real, height: real)

  /** Ball centre and velocity, left edge of the paddle, brick grid, score and
      the game-over flag. Positions are exact reals. */
  datatype State = State(
    ballX: real,
    ballY: real,
    dx: real,
    dy: real,
    paddleX: real,
    bricks: Grid,
    score: int,
    gameOver: bool)

  function Abs(x: real): real {
    if x < 0.0 then -x else x
  }

  /** Visibility of the brick at cell index `k`. */
  function Visible(g: Grid, k: nat): bool
    requires k < Cells
  {
    CellsDistinct(k, k);
    g[Col(k)][Row(k)]
  }

  /** The grid with the brick at cell `k` knocked out. */
  function Knock(g: Grid, k: nat): (g': Grid)
    requires k < Cells
    ensures !Visible(g', k)
    ensures forall j :: 0 <= j < Cells && j != k ==> Visible(g', j) == Visible(g, j)
  {
    CellsDistinct(k, k);
    var g' := g[Col(k) := g[Col(k)][Row(k) := false]];
    forall j | 0 <= j < Cells && j != k
      ensures Visible(g', j) == Visible(g, j)
    {
      CellsDistinct(j, k);
    }
    g'
  }

  /** Two grids that agree on every cell are the same grid. */
  lemma SameVisibility(g: Grid, h: Grid)
    requires forall k :: 0 <= k < Cells ==> Visible(g, k) == Visible(h, k)
    ensures g == h
  {
    forall c | 0 <= c < Cols
      ensures g[c] == h[c]
    {
      forall r | 0 <= r < Rows
        ensures g[c][r] == h[c][r]
      {
        CellOf(c, r);
        assert Visible(g, c * Rows + r) == Visible(h, c * Rows + r);
      }
    }
  }

  /** A grid whose bricks are all standing. */
  function AllStanding(): Grid {
    seq(Cols, c => seq(Rows, r => true))
  }

  /** Number of knocked-out bricks among the cells `k..Cells`. */
  function ClearedFrom(g: Grid, k: nat): (n: nat)
    requires k <= Cells
    ensures n <= Cells - k
    decreases Cells - k
  {
    if k == Cells then 0
    else (if Visible(g, k) then 0 else 1) + ClearedFrom(g, k + 1)
  }

  /** Number of knocked-out bricks in the whole grid. */
  function Cleared(g: Grid): nat {
    ClearedFrom(g, 0)
  }

  /** `h` is `g` with the standing brick at cell `i` knocked out and every
      other cell unchanged, as `Knock` produces it. */
  predicate KnockedAt(g: Grid, h: Grid, i: nat)
    requires i < Cells
  {
    && Visible(g, i) && !Visible(h, i)
    && forall j :: 0 <= j < Cells && j != i ==> Visible(h, j) == Visible(g, j)
  }

  /** Knocking out a standing brick at or after cell `k` adds exactly one to
      the count of cleared bricks from `k` on. */
  lemma {:induction false} KnockCounts(g: Grid, h: Grid, i: nat, k: nat)
    requires i < Cells && k <= i
    requires KnockedAt(g, h, i)
    ensures ClearedFrom(h, k) == ClearedFrom(g, k) + 1
    decreases Cells - k
  {
    if k < i {
      KnockCounts(g, h, i, k + 1);
      assert Visible(h, k) == Visible(g, k);
    } else {
      KnockUnrelated(g, h, i, k + 1);
    }
  }

  /** Knocking out cell `i` does not change the count over cells after `i`. */
  lemma {:induction false} KnockUnrelated(g: Grid, h: Grid, i: nat, k: nat)
    requires i < Cells && i < k <= Cells
    requires KnockedAt(g, h, i)
    ensures ClearedFrom(h, k) == ClearedFrom(g, k)
    decreases Cells - k
  {
    if k < Cells {
      KnockUnrelated(g, h, i, k + 1);
      assert Visible(h, k) == Visible(g, k);
    }
  }

  /** The cleared count from `k` on is maximal exactly when every brick from
      `k` on is knocked out. */
  lemma {:induction false} ClearedAll(g: Grid, k: nat)
    requires k <= Cells
    ensures ClearedFrom(g, k) == Cells - k <==> forall j :: k <= j < Cells ==> !Visible(g, j)
    decreases Cells - k
  {
    if k < Cells {
      ClearedAll(g, k + 1);
    }
  }

  /** The cleared count from `k` on is zero exactly when every brick from `k`
      on is standing. */
  lemma {:induction false} ClearedNone(g: Grid, k: nat)
    requires k <= Cells
    ensures ClearedFrom(g, k) == 0 <==> forall j :: k <= j < Cells ==> Visible(g, j)
    decreases Cells - k
  {
    if k < Cells {
      ClearedNone(g, k + 1);
    }
  }

  /** The state the game's globals hold when the script starts. */
  function Initial(f: Field): State {
    State(
      ballX := f.width / 2.0,
      ballY := f.height - 30.0,
      dx := Speed,
      dy := -Speed,
      paddleX := (f.width - PaddleWidth) / 2.0,
      bricks := AllStanding(),
      score := 0,
      gameOver := false)
  }

  /** The retry button: every field of the world is reassigned, and every
      brick is stood up again, whatever state the game was in. The result is
      the state the script starts in. */
  function Reset(w: State, f: Field): (r: State)
    ensures r == Initial(f)
    ensures r.score == 0 && !r.gameOver
    ensures forall k :: 0 <= k < Cells ==> Visible(r.bricks, k)
    ensures Cleared(r.bricks) == 0
  {
    var r := w.(
      score := 0,
      ballX := f.width / 2.0,
      ballY := f.height - 30.0,
      dx := Speed,
      dy := -Speed,
      paddleX := (f.width - PaddleWidth) / 2.0,
      gameOver := false,
      bricks := AllStanding());
    ClearedNone(r.bricks, 0);
    r
  }

  /** What every state between two resets satisfies: the score counts the
      knocked-out bricks, and both velocity components have magnitude 2. */
  predicate Inv(w: State) {
    && w.score == Cleared(w.bricks)
    && (w.dx == Speed || w.dx == -Speed)
    && (w.dy == Speed || w.dy == -Speed)
  }
}
