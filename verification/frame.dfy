/** One animation frame of the game with the rendering taken out, and the
    touch handler that moves the paddle between frames. */
module Frame {
  import opened Layout
  import opened World
  import Collision

  /** Whether the right and left arrow keys are held during the frame. */
  datatype Keys = Keys(right: bool, left: bool)

  /** Keyboard paddle movement. The guard looks at the position before the
      move, so the paddle can end up to 7 units past either edge; when the
      right-hand guard fails the left key is still consulted. */
  function MovePaddle(f: Field, x: real, keys: Keys): real {
    if keys.right && x < f.width - PaddleWidth then x + PaddleStep
    else if keys.left && x > 0.0 then x - PaddleStep
    else x
  }

  /** Left wall and right wall: `dx` reverses when the next horizontal
      position would leave the band `[radius, width - radius]`. */
  function WallDx(f: Field, x: real, dx: real): real {
    if x + dx > f.width - BallRadius || x + dx < BallRadius then -dx else dx
  }

  /** Paddle movement followed by position integration. */
  function Advance(v: State, f: Field, keys: Keys): State {
    v.(paddleX := MovePaddle(f, v.paddleX, keys),
       ballX := v.ballX + v.dx,
       ballY := v.ballY + v.dy)
  }

  /** `draw()` without rendering. Nothing happens once the game is over.
      Otherwise the bricks are tested, then the walls (with `dy` as the brick
      test left it), then the ceiling or else the floor: over the paddle the
      ball bounces, past it the game ends and the frame stops before the
      paddle moves or the ball advances. */
  function Step(w: State, f: Field, keys: Keys): (r: State)
    ensures w.gameOver ==> r == w
    ensures forall k :: 0 <= k < Cells && Visible(r.bricks, k) ==> Visible(w.bricks, k)
    ensures r.score >= w.score
    ensures Abs(r.dx) == Abs(w.dx) && Abs(r.dy) == Abs(w.dy)
    ensures r.gameOver && !w.gameOver ==>
              r.ballX == w.ballX && r.ballY == w.ballY && r.paddleX == w.paddleX
    ensures !r.gameOver ==> r.ballX == w.ballX + r.dx && r.ballY == w.ballY + r.dy
  {
    if w.gameOver then w else Bounce(Collision.Detect(w), f, keys)
  }

  /** The part of a running frame after the brick test, applied to the state
      `v` the brick test left: `dx` reverses exactly at a side wall; at the
      ceiling `dy` reverses; at the floor over the paddle `dy` reverses, past
      it the game ends; in between `dy` is kept. Only the floor miss sets the
      game-over flag. A frame that goes on moves the paddle by the held keys. */
  function Bounce(v: State, f: Field, keys: Keys): (r: State)
    ensures r.bricks == v.bricks && r.score == v.score
    ensures v.dx != 0.0 ==>
              (r.dx == -v.dx <==>
                 v.ballX + v.dx > f.width - BallRadius || v.ballX + v.dx < BallRadius)
    ensures !(v.ballX + v.dx > f.width - BallRadius || v.ballX + v.dx < BallRadius) ==>
              r.dx == v.dx
    ensures v.ballY + v.dy < BallRadius ==> r.dy == -v.dy && r.gameOver == v.gameOver
    ensures !(v.ballY + v.dy < BallRadius) && v.ballY + v.dy > f.height - BallRadius ==>
              if v.ballX > v.paddleX && v.ballX < v.paddleX + PaddleWidth
              then r.dy == -v.dy && r.gameOver == v.gameOver
              else r.dy == v.dy && r.gameOver
    ensures BallRadius <= v.ballY + v.dy <= f.height - BallRadius ==>
              r.dy == v.dy && r.gameOver == v.gameOver
    ensures !r.gameOver ==> r.paddleX == MovePaddle(f, v.paddleX, keys)
    ensures Abs(r.dx) == Abs(v.dx) && Abs(r.dy) == Abs(v.dy)
    ensures r.gameOver && !v.gameOver ==>
              r.ballX == v.ballX && r.ballY == v.ballY && r.paddleX == v.paddleX
    ensures !r.gameOver ==> r.ballX == v.ballX + r.dx && r.ballY == v.ballY + r.dy
  {
    var dx := WallDx(f, v.ballX, v.dx);
    if v.ballY + v.dy < BallRadius then
      Advance(v.(dx := dx, dy := -v.dy), f, keys)
    else if v.ballY + v.dy > f.height - BallRadius then
      if v.ballX > v.paddleX && v.ballX < v.paddleX + PaddleWidth then
        Advance(v.(dx := dx, dy := -v.dy), f, keys)
      else
        v.(dx := dx, gameOver := true)
    else
      Advance(v.(dx := dx), f, keys)
  }

  /** The touch handler: the paddle is centred on the touch coordinate `x`,
      with no clamping, and nothing else changes. It runs whether or not the
      game is over. */
  function Touch(w: State, x: real): (r: State)
    ensures r.paddleX + PaddleWidth / 2.0 == x
    ensures r == w.(paddleX := r.paddleX)
  {
    w.(paddleX := x - PaddleWidth / 2.0)
  }
}
