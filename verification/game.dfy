/** Properties of the game as a whole: what one frame does to the ball, the
    paddle, the bricks and the score; the invariant every state between
    resets keeps; runs of many frames; and the retry button. */
module Game {
  import opened Layout
  import opened World
  import opened Frame
  import Collision

  /** The frames of a run, one set of held keys per frame. */
  function Run(w: State, f: Field, frames: seq<Keys>): State
    decreases |frames|
  {
    if |frames| == 0 then w
    else Run(Step(w, f, frames[0]), f, frames[1..])
  }

  // ---------------------------------------------------------------------
  // One frame

  /** A standing brick that strictly contains the ball centre is knocked out
      in the frame, the score rises by exactly one and the brick test reverses
      `dy`; every other brick keeps its visibility. */
  lemma StepHitsBrick(w: State, f: Field, keys: Keys, k: nat)
    requires !w.gameOver && k < Cells
    requires Visible(w.bricks, k) && Inside(w.ballX, w.ballY, Col(k), Row(k))
    ensures !Visible(Step(w, f, keys).bricks, k)
    ensures Step(w, f, keys).score == w.score + 1
    ensures Collision.Detect(w).dy == -w.dy
    ensures forall j :: 0 <= j < Cells && j != k ==>
              Visible(Step(w, f, keys).bricks, j) == Visible(w.bricks, j)
  {
    Collision.DetectEffect(w);
    assert Collision.Hit(w, k);
    forall j | 0 <= j < Cells && j != k
      ensures Visible(Collision.Detect(w).bricks, j) == Visible(w.bricks, j)
    {
      if Visible(w.bricks, j) && Inside(w.ballX, w.ballY, Col(j), Row(j)) {
        Collision.NotAlsoHit(w, k, j);
      }
    }
  }

  /** A frame with no standing brick around the ball centre leaves the grid,
      the score and `dy` as the brick test found them. */
  lemma StepMissesBricks(w: State, f: Field, keys: Keys)
    requires !w.gameOver
    requires forall k :: 0 <= k < Cells ==> !Collision.Hit(w, k)
    ensures Step(w, f, keys).bricks == w.bricks
    ensures Step(w, f, keys).score == w.score
    ensures Collision.Detect(w) == w
  {
    Collision.DetectEffect(w);
  }

  /** `dx` reverses in a running frame exactly when the next horizontal
      position would pass the right wall or the left wall. */
  lemma StepWalls(w: State, f: Field, keys: Keys)
    requires !w.gameOver && w.dx != 0.0
    ensures Step(w, f, keys).dx == -w.dx <==>
              w.ballX + w.dx > f.width - BallRadius || w.ballX + w.dx < BallRadius
    ensures Step(w, f, keys).dx == w.dx <==>
              !(w.ballX + w.dx > f.width - BallRadius || w.ballX + w.dx < BallRadius)
  {
    var v := Collision.Detect(w);
    assert Step(w, f, keys) == Bounce(v, f, keys);
  }

  /** The vertical outcome of a running frame, in terms of the ball after the
      brick test (`v`): at the ceiling `dy` reverses and the game goes on; at
      the floor over the paddle `dy` reverses and the game goes on; at the
      floor past the paddle the game ends; between the two `dy` is kept. The
      game ends exactly in the last case, so the ceiling and the floor never
      both act in one frame. */
  lemma StepVertical(w: State, f: Field, keys: Keys)
    requires !w.gameOver
    ensures var v := Collision.Detect(w);
            var r := Step(w, f, keys);
            && (v.ballY + v.dy < BallRadius ==> r.dy == -v.dy && !r.gameOver)
            && (!(v.ballY + v.dy < BallRadius) && v.ballY + v.dy > f.height - BallRadius ==>
                  if v.ballX > v.paddleX && v.ballX < v.paddleX + PaddleWidth
                  then r.dy == -v.dy && !r.gameOver
                  else r.dy == v.dy && r.gameOver)
            && (BallRadius <= v.ballY + v.dy <= f.height - BallRadius ==>
                  r.dy == v.dy && !r.gameOver)
    ensures Step(w, f, keys).gameOver <==>
              var v := Collision.Detect(w);
              && !(v.ballY + v.dy < BallRadius)
              && v.ballY + v.dy > f.height - BallRadius
              && !(w.ballX > w.paddleX && w.ballX < w.paddleX + PaddleWidth)
  {
    Collision.DetectEffect(w);
  }

  /** The paddle in a frame that does not end the game: +7 when the right
      key is held and the paddle is left of `width - 75`; otherwise -7 when
      the left key is held and the paddle is right of 0; otherwise it stays. */
  lemma StepPaddle(w: State, f: Field, keys: Keys)
    requires !w.gameOver && !Step(w, f, keys).gameOver
    ensures var d := Step(w, f, keys).paddleX - w.paddleX;
            && (d == PaddleStep <==> keys.right && w.paddleX < f.width - PaddleWidth)
            && (d == -PaddleStep <==>
                  !(keys.right && w.paddleX < f.width - PaddleWidth) && keys.left && w.paddleX > 0.0)
            && (d == 0.0 <==>
                  !(keys.right && w.paddleX < f.width - PaddleWidth) && !(keys.left && w.paddleX > 0.0))
  {
    var v := Collision.Detect(w);
    assert Step(w, f, keys) == Bounce(v, f, keys);
  }

  /** Keys alone never take the paddle more than one move past an edge: the
      open band `(-7, width - 68)` is kept by every frame. */
  lemma StepPaddleBand(w: State, f: Field, keys: Keys)
    requires -PaddleStep < w.paddleX < f.width - PaddleWidth + PaddleStep
    ensures -PaddleStep < Step(w, f, keys).paddleX < f.width - PaddleWidth + PaddleStep
  {
    if !w.gameOver {
      var v := Collision.Detect(w);
      assert Step(w, f, keys) == Bounce(v, f, keys);
    }
  }

  /** The band `(-7, width - 68)` is the tightest one: a paddle just inside
      the right edge moves a full step on the right key, so it ends past the
      edge and, as `x` approaches the edge, arbitrarily close to `width - 68`. */
  lemma KeyOvershoots(f: Field, x: real)
    requires f.width - PaddleWidth - PaddleStep < x < f.width - PaddleWidth
    ensures MovePaddle(f, x, Keys(true, false)) == x + PaddleStep
    ensures MovePaddle(f, x, Keys(true, true)) == x + PaddleStep
    ensures MovePaddle(f, x, Keys(true, false)) > f.width - PaddleWidth
  {
  }

  /** A touch left of 37.5 puts the paddle at least partly off the field
      (wholly off it for a touch left of -37.5). */
  lemma TouchUnclamped(w: State, x: real)
    requires x < PaddleWidth / 2.0
    ensures Touch(w, x).paddleX < 0.0
  {
  }

  // ---------------------------------------------------------------------
  // The invariant

  /** Every state between resets has a score equal to the number of
      knocked-out bricks, so the score lies in `0..15` and is 15 exactly when
      no brick is standing. */
  lemma ScoreBounds(w: State)
    requires Inv(w)
    ensures 0 <= w.score <= Cells
    ensures w.score == Cells <==> forall k :: 0 <= k < Cells ==> !Visible(w.bricks, k)
    ensures w.score == 0 <==> forall k :: 0 <= k < Cells ==> Visible(w.bricks, k)
  {
    ClearedAll(w.bricks, 0);
    ClearedNone(w.bricks, 0);
  }

  /** A frame keeps the invariant. */
  lemma StepKeepsInv(w: State, f: Field, keys: Keys)
    requires Inv(w)
    ensures Inv(Step(w, f, keys))
  {
    Collision.DetectKeepsInv(w);
  }

  /** A touch keeps the invariant. */
  lemma TouchKeepsInv(w: State, x: real)
    requires Inv(w)
    ensures Inv(Touch(w, x))
  {
  }

  /** The retry button puts the game back in the state the script starts in,
      whatever it was before, so pressing it twice is the same as once; the
      state it produces satisfies the invariant. The first clause repeats
      `World.Reset`'s own contract for the reader; the others follow from it. */
  lemma ResetRestoresStart(w: State, f: Field)
    ensures Reset(w, f) == Initial(f)
    ensures Reset(Reset(w, f), f) == Reset(w, f)
    ensures Inv(Reset(w, f))
    ensures Initial(f).ballX == f.width / 2.0 && Initial(f).ballY == f.height - 30.0
    ensures Initial(f).dx == 2.0 && Initial(f).dy == -2.0
    ensures Initial(f).paddleX == (f.width - 75.0) / 2.0
  {
  }

  // ---------------------------------------------------------------------
  // Runs of frames

  /** Once the game is over, frames change nothing until the retry button. */
  lemma {:induction false} RunStaysOver(w: State, f: Field, frames: seq<Keys>)
    requires w.gameOver
    ensures Run(w, f, frames) == w
    decreases |frames|
  {
    if |frames| > 0 {
      RunStaysOver(Step(w, f, frames[0]), f, frames[1..]);
    }
  }

  /** Across any run the score never falls and no knocked-out brick comes
      back. */
  lemma {:induction false} RunMonotone(w: State, f: Field, frames: seq<Keys>)
    ensures Run(w, f, frames).score >= w.score
    ensures forall k :: 0 <= k < Cells && Visible(Run(w, f, frames).bricks, k) ==>
              Visible(w.bricks, k)
    decreases |frames|
  {
    if |frames| > 0 {
      RunMonotone(Step(w, f, frames[0]), f, frames[1..]);
    }
  }

  /** Any run keeps the invariant, so the score keeps counting the cleared
      bricks and both speeds stay 2 in magnitude. */
  lemma {:induction false} RunKeepsInv(w: State, f: Field, frames: seq<Keys>)
    requires Inv(w)
    ensures Inv(Run(w, f, frames))
    decreases |frames|
  {
    if |frames| > 0 {
      StepKeepsInv(w, f, frames[0]);
      RunKeepsInv(Step(w, f, frames[0]), f, frames[1..]);
    }
  }

  /** Every state reached from the start or from a reset by frames alone has
      a score in `0..15` that is 15 exactly when every brick is cleared. */
  lemma RunScoreBounds(f: Field, frames: seq<Keys>)
    ensures 0 <= Run(Initial(f), f, frames).score <= Cells
    ensures Run(Initial(f), f, frames).score == Cells <==>
              forall k :: 0 <= k < Cells ==> !Visible(Run(Initial(f), f, frames).bricks, k)
  {
    ResetRestoresStart(Initial(f), f);
    RunKeepsInv(Initial(f), f, frames);
    ScoreBounds(Run(Initial(f), f, frames));
  }

  // ---------------------------------------------------------------------
  // Clearing the board

  /** Knocking out the last standing brick clears the board and brings the
      score to 15, but does not by itself end the game: the frame ends the game
      exactly when it would have anyway, on a floor miss. */
  lemma LastBrickDoesNotEndGame(w: State, f: Field, keys: Keys, k: nat)
    requires Inv(w) && !w.gameOver && w.score == Cells - 1
    requires k < Cells && Visible(w.bricks, k) && Inside(w.ballX, w.ballY, Col(k), Row(k))
    ensures Step(w, f, keys).score == Cells
    ensures forall j :: 0 <= j < Cells ==> !Visible(Step(w, f, keys).bricks, j)
    ensures Step(w, f, keys).gameOver <==>
              var v := Collision.Detect(w);
              && !(v.ballY + v.dy < BallRadius)
              && v.ballY + v.dy > f.height - BallRadius
              && !(w.ballX > w.paddleX && w.ballX < w.paddleX + PaddleWidth)
  {
    StepHitsBrick(w, f, keys, k);
    StepVertical(w, f, keys);
    StepKeepsInv(w, f, keys);
    ScoreBounds(Step(w, f, keys));
  }

  /** An instance: on a 480 by 320 canvas with one brick left at the ball
      centre (50, 40), the frame scores the fifteenth point, the game goes on,
      and the next frame still moves the ball. */
  lemma LastBrickExample()
    ensures var f := Field(480.0, 320.0);
            var g := [[true, false, false], [false, false, false], [false, false, false],
                      [false, false, false], [false, false, false]];
            var w := State(50.0, 40.0, 2.0, -2.0, 200.0, g, 14, false);
            var r := Step(w, f, Keys(false, false));
            && r.score == Cells && !r.gameOver
            && Step(r, f, Keys(false, false)).ballY != r.ballY
  {
    var f := Field(480.0, 320.0);
    var keys := Keys(false, false);
    var g: Grid := [[true, false, false], [false, false, false], [false, false, false],
                    [false, false, false], [false, false, false]];
    var w := State(50.0, 40.0, 2.0, -2.0, 200.0, g, 14, false);
    assert Visible(g, 0);
    StepHitsBrick(w, f, keys, 0);
    Collision.DetectEffect(w);
    var r := Step(w, f, keys);
    assert r == Bounce(Collision.Detect(w), f, keys);
    StepVertical(w, f, keys);
    assert !r.gameOver && r.ballY == 42.0 && r.dy == 2.0;
    Collision.DetectEffect(r);
    StepVertical(r, f, keys);
  }
}
