# Breakout frame simulation in Dafny

A model of the per-frame simulation of a small browser breakout game
(`script.js`). The game keeps its world in a handful of globals: the
ball centre `ballX`/`ballY`, its velocity `dx`/`dy`, the paddle's left edge
`paddleX`, a 5-column by 3-row grid of bricks that are either standing or
knocked out, a `score` and a `gameOver` flag. Every animation frame `draw()`
tests the ball against every standing brick, bounces it off the walls,
ceiling and paddle (or ends the game when it falls past the paddle), moves
the paddle by the held arrow keys and advances the ball. A touch centres the
paddle on the touch point; the retry button resets everything.

Here the world is an immutable `State` over exact `real`s, and each of those
transitions is a pure function:

- `layout.dfy` (module `Layout`): constants and the brick rectangles. Bricks
  are also numbered by a cell index `k = c * 3 + r`, the order the game's
  nested loops visit them.
- `world.dfy` (module `World`): the `State`, the brick `Grid`, the count of
  cleared bricks, the start state `Initial`, the retry button `Reset`, and the
  invariant `Inv` (score equals the number of cleared bricks, both speeds
  have magnitude 2).
- `collision.dfy` (module `Collision`): `collisionDetection` as a sweep
  over all 15 cells with no early exit, the hit count, and what one sweep
  does.
- `frame.dfy` (module `Frame`): `Step` (one call of `draw()` without
  rendering), split into the brick test `Collision.Detect` and the rest
  `Bounce`; `MovePaddle` for the arrow keys; `Touch` for the touch handler.
- `game.dfy` (module `Game`): the properties of a frame, the invariant, runs
  of frames (`Run`), the retry button, and a concrete frame that clears the
  board.

The canvas size is a parameter (`Field`); the held keys are a parameter
(`Keys`) of each frame; the touch coordinate, already made relative to the
canvas, is a parameter of `Touch`.

The model follows the code as written; in particular:

- The paddle is never clamped. Arrow keys are guarded on the position before
  the move, so the paddle can stop up to 7 units past either edge; a touch
  can put it anywhere.
- Clearing the last brick only shows a popup. Nothing in the world records
  the win, and the frames keep running until the ball is missed.
- Every standing brick is tested each frame, with no stop after the first
  hit. Because the bricks are disjoint, at most one is ever hit in a frame.
- When the right-key guard fails (right key held but paddle already at or
  past `width - 75`), the left key is still consulted, so the right key
  takes priority only while the right move is allowed.
- The ceiling test uses `dy` as the brick test left it. The paddle test uses
  the paddle position from before this frame's key move. A frame that ends the
  game keeps what the brick test and the side walls already did to the
  bricks, the score and `dx`.
- A touch moves the paddle even after the game is over.

## Model

| member | source | states |
|---|---|---|
| Layout.BrickRect | script.js:132-133 | brick (c, r) is hit by exactly the points strictly inside the 75 by 20 rectangle whose corner is (85c + 30, 30r + 30) |
| Layout.BricksDisjoint | script.js:64-69 | no point lies strictly inside two different bricks |
| Layout.CellsDistinct | script.js:60-61 | every cell index names a column below 5 and a row below 3, and distinct cells name distinct bricks |
| World.Knock | script.js:71 | knocking out a brick hides that brick and leaves every other brick's visibility unchanged |
| World.KnockCounts | script.js:71-72 | knocking out a standing brick raises the number of cleared bricks by exactly one, matching the score increment |
| World.ClearedAll | script.js:73 | the cleared count reaches its maximum exactly when no brick is standing |
| World.ClearedNone | script.js:104-108 | the cleared count is zero exactly when every brick is standing |
| World.Reset | script.js:96-108 | a reset from any state yields the start state: ball at (width/2, height - 30), velocity (2, -2), paddle at (width - 75)/2, every brick standing and none counted as cleared, score 0, game running |
| Collision.SweepFrom | script.js:59-80 | the sweep leaves ball, `dx`, paddle and flag alone; a brick ends hidden iff it was hidden or was hit; the score rises by the number of hits; `dy` flips on one hit and stays on none; score minus cleared count is preserved |
| Collision.AtMostOneHit | script.js:60-79 | one sweep hits at most one brick, and hits one exactly when some standing brick strictly contains the ball centre |
| Collision.DetectEffect | script.js:63-72 | a standing brick strictly containing the ball centre is hidden, score +1 and `dy` negated, all other bricks keep their visibility; with no such brick the state is unchanged |
| Collision.DetectKeepsInv | script.js:70-72 | the brick test keeps score equal to the cleared count and both speeds at magnitude 2 |
| Frame.Step | script.js:152-179 | over: nothing changes; bricks never reappear; score never falls; `abs(dx)` and `abs(dy)` never change; the frame that ends the game moves neither ball nor paddle; otherwise the ball moves by the new velocity |
| Frame.Bounce | script.js:162-179 | bricks and score are kept and both speeds keep their magnitude; `dx` flips iff the next x passes a side wall; ceiling: `dy` flips; floor strictly over the paddle: `dy` flips; floor past it: game over with ball and paddle unmoved; in between: `dy` kept; a frame that goes on moves the paddle by the arrow-key rule and the ball by the new velocity |
| Frame.Touch | script.js:54 | the paddle is centred on the touch point and nothing else changes |
| Game.StepHitsBrick | script.js:63-72 | in a running frame a standing brick containing the ball centre is knocked out, the score rises by exactly 1, the brick test negates `dy`, and all other bricks keep their visibility |
| Game.StepMissesBricks | script.js:63-69 | with no standing brick around the ball centre the frame keeps bricks and score and the brick test changes nothing |
| Game.StepWalls | script.js:163 | `dx` is negated iff `ballX + dx > width - 8` or `ballX + dx < 8`, and kept otherwise |
| Game.StepVertical | script.js:164-171 | ceiling: `dy` negated, game goes on; floor over the paddle (strictly between its edges): `dy` negated, game goes on; floor past it: game over; in between: `dy` kept; the game ends exactly in the floor-miss case, so ceiling and floor are exclusive |
| Game.StepPaddle | script.js:175-176 | in a frame that does not end the game the paddle moves +7 iff right is held and `paddleX < width - 75`, else -7 iff left is held and `paddleX > 0`, else stays |
| Game.StepPaddleBand | script.js:175-176 | the arrow keys keep the paddle inside the open band (-7, width - 68) |
| Game.KeyOvershoots | script.js:175 | a paddle within one step left of `width - 75` moves a full +7 on the right key (with or without the left key), so it ends past `width - 75` and as close to `width - 68` as its start is to `width - 75`: the band of `StepPaddleBand` cannot be narrowed on the right |
| Game.TouchUnclamped | script.js:54 | a touch left of 37.5 leaves the paddle at least partly off the field (its left edge below 0) |
| Game.ScoreBounds | script.js:72-73 | in a state satisfying the invariant the score lies in 0..15, is 15 iff every brick is cleared and 0 iff every brick stands |
| Game.StepKeepsInv | script.js:160-179 | a frame keeps score equal to the cleared count and both speeds at magnitude 2 |
| Game.TouchKeepsInv | script.js:54 | a touch keeps the invariant |
| Game.ResetRestoresStart | script.js:5-35 | a reset from any state yields exactly the start state (ball at (width/2, height - 30), velocity (2, -2), paddle at (width - 75)/2), so a second reset changes nothing; the result satisfies the invariant |
| Game.RunStaysOver | script.js:152-153 | once the game is over any number of frames leaves the whole state unchanged |
| Game.RunMonotone | script.js:71-72 | across any run of frames the score never falls and no knocked-out brick comes back |
| Game.RunKeepsInv | script.js:70-72 | any run of frames keeps the invariant |
| Game.RunScoreBounds | script.js:26-35 | every state reached from the start by frames has score in 0..15, equal to 15 iff every brick is cleared |
| Game.LastBrickDoesNotEndGame | script.js:72-75 | in any running state satisfying the invariant with score 14, a frame whose ball centre lies in the last standing brick brings the score to 15 and clears the board, and ends the game exactly when the ball misses the paddle at the floor, as in any other frame |
| Game.LastBrickExample | script.js:73-75 | on a 480 by 320 canvas with the ball at (50, 40) inside the last standing brick, the frame scores the fifteenth point, the game stays running, and the next frame still moves the ball |

## Left out

- Rendering: `drawBall`, `drawPaddle`, `drawScore`, the canvas calls in
  `drawBricks` and `clearRect`. `paddleHeight` is used only to draw the
  paddle and does not appear.
- The stored `x`/`y` of each brick. The game writes them from the layout
  formula for every standing brick before the brick test of every frame, and
  only standing bricks are tested, so the model uses the formula directly
  (`Layout.BrickX`, `Layout.BrickY`).
- Popups and DOM access (`showPopup`, `getElementById`, `style.display`): the
  win popup changes nothing in the world; the game-over popup is the
  `gameOver` flag.
- Event wiring: the keydown/keyup handlers become the `Keys` argument of each
  frame, and `getBoundingClientRect` plus the touch list become the coordinate
  argument of `Touch`.
- `requestAnimationFrame` scheduling: frames are single `Step`s or a `Run`
  over a list of frames. Pressing retry while a game is still running starts
  a second animation loop in the game; the model does not describe how many
  frames the host runs.
- Number representation: the game computes in double-precision floating
  point; the model uses exact reals, so rounding is not modelled. Ball
  positions and paddle positions reached only by arrow keys stay integers or
  half-integers and do not round until they grow very large. A touch sets
  `paddleX` from an arbitrary double coordinate (script.js:53-54), so a
  touch-derived paddle position can round from the first frame, and then the
  `paddleX > 0` guard and the paddle-span test can differ in the last bit from
  their exact-real counterparts here.
- Frame.Step: does not state the brick, wall and paddle outcomes itself;
  those are in the `Game.Step…` lemmas.
