/** Brick collision: every standing brick is tested against the ball centre,
    in column-major order, with no early exit. A hit reverses the vertical
    velocity, knocks the brick out and adds one to the score. Clearing the
    last brick only raises a popup, so it changes nothing in the world. */
module Collision {
  import opened Layout
  import opened World

  /** Brick `k` is standing and the ball centre is strictly inside it. */
  predicate Hit(w: State, k: nat)
    requires k < Cells
  {
    Visible(w.bricks, k) && Inside(w.ballX, w.ballY, Col(k), Row(k))
  }

  /** Number of bricks among cells `k..Cells` that the ball centre hits. */
  function HitsFrom(w: State, k: nat): nat
    requires k <= Cells
    decreases Cells - k
  {
    if k == Cells then 0
    else (if Hit(w, k) then 1 else 0) + HitsFrom(w, k + 1)
  }

  /** The two nested loops of the collision test, resumed at cell `k`. */
  function SweepFrom(w: State, k: nat): (r: State)
    requires k <= Cells
    decreases Cells - k
    ensures r.ballX == w.ballX && r.ballY == w.ballY && r.dx == w.dx
    ensures r.paddleX == w.paddleX && r.gameOver == w.gameOver
    ensures forall j :: 0 <= j < Cells ==>
              Visible(r.bricks, j) == (Visible(w.bricks, j) && !(k <= j && Hit(w, j)))
    ensures r.score == w.score + HitsFrom(w, k)
    ensures r.dy == w.dy || r.dy == -w.dy
    ensures HitsFrom(w, k) == 0 ==> r.dy == w.dy
    ensures HitsFrom(w, k) == 1 ==> r.dy == -w.dy
    ensures r.score - Cleared(r.bricks) == w.score - Cleared(w.bricks)
  {
    if k == Cells then w
    else if Hit(w, k) then
      var w' := w.(dy := -w.dy, bricks := Knock(w.bricks, k), score := w.score + 1);
      HitStep(w, w', k);
      var r := SweepFrom(w', k + 1);
      forall j | 0 <= j < Cells
        ensures Visible(r.bricks, j) == (Visible(w.bricks, j) && !(k <= j && Hit(w, j)))
      {
        if j != k {
          assert Visible(w'.bricks, j) == Visible(w.bricks, j);
        }
      }
      r
    else
      SweepFrom(w, k + 1)
  }

  /** One hit of the sweep: brick `k` goes, every later cell is hit exactly
      as before, and the score and the cleared count both rise by one. */
  lemma HitStep(w: State, w': State, k: nat)
    requires k < Cells && Hit(w, k)
    requires w' == w.(dy := -w.dy, bricks := Knock(w.bricks, k), score := w.score + 1)
    ensures KnockedAt(w.bricks, w'.bricks, k)
    ensures forall j :: k < j < Cells ==> Hit(w', j) == Hit(w, j)
    ensures HitsFrom(w, k) == HitsFrom(w', k + 1) + 1
    ensures Cleared(w'.bricks) == Cleared(w.bricks) + 1
  {
    KnockCounts(w.bricks, w'.bricks, k, 0);
    HitsUnaffected(w, w', k + 1);
  }

  /** The hit count from `k` on depends only on the ball centre and the
      bricks from `k` on. */
  lemma {:induction false} HitsUnaffected(w: State, w': State, k: nat)
    requires k <= Cells
    requires w'.ballX == w.ballX && w'.ballY == w.ballY
    requires forall j :: k <= j < Cells ==> Visible(w'.bricks, j) == Visible(w.bricks, j)
    ensures HitsFrom(w', k) == HitsFrom(w, k)
    decreases Cells - k
  {
    if k < Cells {
      HitsUnaffected(w, w', k + 1);
    }
  }

  /** `collisionDetection`: one pass over the whole grid. */
  function Detect(w: State): State {
    SweepFrom(w, 0)
  }

  /** A hit count from `k` on is zero exactly when no brick from `k` on is hit. */
  lemma {:induction false} NoHitsFrom(w: State, k: nat)
    requires k <= Cells
    ensures HitsFrom(w, k) == 0 <==> forall j :: k <= j < Cells ==> !Hit(w, j)
    decreases Cells - k
  {
    if k < Cells {
      NoHitsFrom(w, k + 1);
    }
  }

  /** Because the bricks are disjoint, one pass hits at most one brick, and
      it hits one exactly when some standing brick contains the ball centre. */
  lemma AtMostOneHit(w: State)
    ensures HitsFrom(w, 0) <= 1
    ensures HitsFrom(w, 0) == 1 <==> exists k :: 0 <= k < Cells && Hit(w, k)
  {
    NoHitsFrom(w, 0);
    if k :| 0 <= k < Cells && Hit(w, k) {
      OnlyHit(w, k, 0);
    }
  }

  /** If brick `i` is hit, the count over any range of cells containing `i`
      is exactly one. */
  lemma {:induction false} OnlyHit(w: State, i: nat, k: nat)
    requires i < Cells && k <= i && Hit(w, i)
    ensures HitsFrom(w, k) == 1
    decreases Cells - k
  {
    if k < i {
      OnlyHit(w, i, k + 1);
      NotAlsoHit(w, i, k);
    } else {
      NoHitsFrom(w, k + 1);
      forall j | k + 1 <= j < Cells
        ensures !Hit(w, j)
      {
        NotAlsoHit(w, i, j);
      }
    }
  }

  /** No brick other than a hit one is hit as well. */
  lemma NotAlsoHit(w: State, i: nat, j: nat)
    requires i < Cells && j < Cells && i != j && Hit(w, i)
    ensures !Hit(w, j)
  {
    if Hit(w, j) {
      CellsDistinct(i, j);
      BricksDisjoint(w.ballX, w.ballY, Col(i), Row(i), Col(j), Row(j));
    }
  }

  /** A standing brick that strictly contains the ball centre is knocked out,
      the score rises by exactly one and `dy` is reversed once; every other
      brick keeps its visibility. Without such a brick nothing changes. */
  lemma DetectEffect(w: State)
    ensures Detect(w).ballX == w.ballX && Detect(w).ballY == w.ballY
    ensures Detect(w).dx == w.dx && Detect(w).paddleX == w.paddleX
    ensures Detect(w).gameOver == w.gameOver
    ensures forall k :: 0 <= k < Cells ==>
              (Visible(Detect(w).bricks, k) <==>
                 Visible(w.bricks, k) && !Inside(w.ballX, w.ballY, Col(k), Row(k)))
    ensures (exists k :: 0 <= k < Cells && Hit(w, k)) ==>
              Detect(w).score == w.score + 1 && Detect(w).dy == -w.dy
    ensures (forall k :: 0 <= k < Cells ==> !Hit(w, k)) ==> Detect(w) == w
  {
    AtMostOneHit(w);
    NoHitsFrom(w, 0);
    if forall k :: 0 <= k < Cells ==> !Hit(w, k) {
      SameVisibility(Detect(w).bricks, w.bricks);
    }
  }

  /** The sweep preserves the invariant: the score still counts the cleared
      bricks and both speeds keep magnitude 2. */
  lemma DetectKeepsInv(w: State)
    requires Inv(w)
    ensures Inv(Detect(w))
  {
    AtMostOneHit(w);
  }
}
