# Block-breaker game core in Dafny

This project models the game logic of a single-screen Breakout clone written
as one React Native component (`App.js`). A ball bounces between three walls,
a paddle the player drags, and a grid of 20 blocks. Each destroyed block
scores 10 points. The game ends when the ball falls past the floor line or
when every block is destroyed.

The model is purely functional. `Game.State` holds the ball, the paddle's x,
the block grid, the score and the two flags `gameStarted` and `gameOver`.
One pass of the animation loop is the pure function `Game.Tick`. The start
button is `Game.StartGame`. The drag handler is `Game.MovePaddle`, which sets the paddle to
`Game.ClampPaddle`. The
completion effect is `Game.CheckCompletion`. `Game.Frame`, `Game.Step` and
`Game.Run` drive them as a session.

Modules:
- `Geometry`: the fixed sizes, the `Screen`, `Ball` and `Block` records, and
  the two rectangle tests. The block test is strict; the paddle test is not.
- `Blocks`: the grid constructor, the first-match block scan (both as a
  function and as the source's loop with `break`), and counting of
  destroyed and remaining blocks.
- `Physics`: velocity integration, the wall clamps, the floor line, the
  paddle rebound with steering, and the horizontal speed cap.
- `Game`: the session state, the frame step, start, drag, the completion
  check, and the invariant every reachable state keeps. In that invariant
  the score is always ten times the number of destroyed blocks.

Positions and velocities are exact `real` numbers. The window size is a
parameter `Screen(width, height)`. The model assumes `width >= 80` and
`height >= 250` (`Geometry.ValidScreen`): the paddle fits, and the ball's
start position 250 above the bottom edge is on screen.

Two points where the code may surprise a reader:
- The paddle test uses non-strict bounds (`>=`, `<=`) and the block test
  strict ones (`<`, `>`); they are not one shared overlap test.
- There is no separate "won" phase. Clearing the grid sets
  `gameOver = true, gameStarted = false`, the same flags as losing the ball.

## Model

| member | source | states |
|---|---|---|
| Blocks.GridRow | App.js:33-41 | the first `cols` blocks of a row are in column order; block `c` of row `row` has id `5·row + c`, x `65·c + 20`, y `25·row + 100`, and is intact |
| Blocks.Grid | App.js:32-42 | `rows` rows give `5·rows` blocks; block k has id k, x `(k mod 5)·65 + 20`, y `(k div 5)·25 + 100`, and is intact |
| Blocks.InitialBlocks | App.js:30-44 | the fresh grid has exactly 20 blocks; block k has id k, x `(k mod 5)·65 + 20`, y `(k div 5)·25 + 100`, and is not destroyed |
| Blocks.FirstHitFrom | App.js:120-127 | the result is the lowest index at or after `from` whose block is standing and strictly overlaps the ball; no hit means no such block exists |
| Blocks.ScanBlocks | App.js:119-140 | the index-order loop that skips destroyed blocks and stops at the first overlap returns the lowest hittable index; it returns no hit exactly when no block is hittable |
| Blocks.Destroy | App.js:129-132 | the destroyed block keeps its id and position; every other block is unchanged; the grid keeps its length |
| Blocks.Remaining | App.js:181 | the filtered grid holds only standing blocks from the grid, and every standing block is in it |
| Blocks.DestroyCountsOnce | App.js:129-134 | destroying a standing block raises the destroyed count by exactly one |
| Blocks.DestroyedPlusRemaining | App.js:181 | destroyed count plus remaining count equals the grid size |
| Blocks.CountDestroyedFull | App.js:181-182 | the destroyed count equals the grid size exactly when every block is destroyed |
| Blocks.NoneRemainingIffAllDestroyed | App.js:181-182 | the filter of standing blocks is empty exactly when every block is destroyed |
| Blocks.IntactCountsZero | App.js:38 | a grid built with every block intact has no destroyed block to score |
| Game.FreeFlight | App.js:68-69 | a frame in which the moved ball meets no wall, stays above the floor line, misses the paddle and overlaps no standing block leaves the state as it was except that the ball has moved by exactly its velocity |
| Physics.WallClamp | App.js:71-87 | afterwards x is in [0, W−15] and y ≥ 0; a left-wall hit leaves x = 0 and vx ≥ 0; a right-wall hit leaves x = W−15 and vx ≤ 0; a top-wall hit leaves y = 0 and vy ≥ 0; a ball already inside keeps its position and velocity; speeds keep their magnitude |
| Physics.WallClampIdempotent | App.js:71-87 | clamping a clamped ball changes nothing |
| Physics.CapSpeed | App.js:112-115 | the result is within [−6, 6], keeps the sign of the input, equals the input when it is already within the cap, and has magnitude 6 otherwise |
| Physics.PaddleBounce | App.js:96-116 | without contact (downward motion and non-strict box overlap with the paddle band at H−100) the ball is unchanged; on contact the ball rests on the paddle at y = H−115, moves up at its old vertical speed, keeps its x, and its vx is the old vx plus 0.08 times the centre offset, capped to [−6, 6] |
| Physics.SteeringExample | App.js:106-110 | a ball centred 20 right of the paddle centre with vx = 2 leaves the paddle with vx = 3.6 |
| Game.InitialState | App.js:17-26 | the app loads neither started nor over, with score 0, no grid, and a state that satisfies the session invariant |
| Game.StartGame | App.js:46-57 | start gives a running, not-over session with score 0, the freshly built 20-block grid with every block intact, ball and paddle centred horizontally, the ball 250 above the bottom edge moving with velocity (2, −4), and a state that satisfies the session invariant, whatever came before |
| Game.ClampPaddle | App.js:167-169 | the paddle x is in [0, W−80]; it equals `absoluteX − 40` when that is in range, 0 when that is left of the screen, and W−80 when it is right of it |
| Game.ClampPaddleIdempotent | App.js:168 | dragging to the paddle's own centre leaves the paddle where it is |
| Game.MovePaddle | App.js:167-169 | a drag changes only the paddle's x, and sets it to the clamped drag target `max(0, min(W−80, absoluteX − 40))`, so it stays on screen |
| Game.BlockStage | App.js:118-140 | the lowest-index standing block that strictly overlaps the ball is destroyed, the score rises by 10, and vy is negated; every other block is unchanged; with no such block the state is unchanged; positions, vx and flags never change; a score that was ten times the destroyed count stays so |
| Game.Tick | App.js:66-141 | after a frame the ball is inside the walls with y ≥ 0; a ball past the floor line ends the game with blocks, score and vy unchanged; otherwise the flags are kept; the paddle and the grid layout never change; destroyed blocks stay as they were; the score either stays, with the grid unchanged, or rises by exactly 10 with exactly one standing block newly destroyed, so a score equal to ten times the destroyed count stays so; a frame that keeps the ball is exactly the block stage applied after the paddle stage on the walled ball |
| Game.TickMissesBlocks | App.js:96-127 | on a frame that keeps the ball and finds no standing block under the paddle-stage ball, the state changes only in its ball, which becomes the paddle-stage ball |
| Game.TickHitsBlock | App.js:96-137 | on a frame that keeps the ball, the lowest-index standing block under the paddle-stage ball is destroyed, every other block is unchanged, the score rises by exactly 10, and the ball is the paddle-stage ball with vy negated |
| Game.CheckCompletion | App.js:179-186 | a started session whose non-empty grid is all destroyed ends with `gameOver` set and `gameStarted` cleared; in every other case, including any block still standing, nothing changes |
| Game.Frame | App.js:142-186 | a frame of a started session runs the game loop: its ball, blocks and score are those of `Game.Tick`, the paddle is unchanged, and the completion check afterwards touches only the two flags; no frame changes a session that is not started; a frame that stops the session sets `gameOver` and was caused by a lost ball or a cleared grid; a frame that keeps it running had neither |
| Game.FramePreservesInvariant | App.js:142-145 | each frame keeps the score consistent, the ball inside the walls, the paddle on screen, the two flags never both set, and the grid layout of the first start |
| Game.RunPreservesInvariant | App.js:49-55 | from any invariant state, every sequence of starts, drags and frames keeps the invariant, so the score is always ten times the number of destroyed blocks |
| Game.ClearedGridScore | App.js:133 | in a reachable state with the whole grid destroyed the score is 200 |

## Left out

- Rendering, layout, styles, the block colour field and the on-screen text: presentation with no behavioural role.
- Reanimated shared values, `useAnimatedStyle` and `runOnJS`: they become plain fields of `Game.State`, updated within the frame.
- `requestAnimationFrame`/`cancelAnimationFrame` scheduling and the teardown effects: `Game.Frame` idealises them as "a frame runs only while `gameStarted` holds". A frame the device might still deliver between a flag change and the cancelling effect is not modelled.
- The lag between `setBlocks` and `blocksRef.current`: in the app a block could be re-hit in the frames before React re-renders, scoring twice. The model applies the destruction and the +10 score within the same frame, so it does not model that double scoring.
- The completion check runs as a React effect after a re-render. `Game.Frame` runs it straight after the frame.
- `Dimensions.get` and the gesture source: the window size and the drag's `absoluteX` are parameters. The drag handler is mounted only while the game area is shown; `Game.Step` accepts a drag in any state, which is a superset.
- The start button is shown only while the game is not started; `Game.Step` also accepts a start during a running session, which is a superset. The app would then run a second animation loop alongside the first, which is not modelled.
- IEEE-754 floating-point rounding: the model uses exact rationals.
- Variable frame timing: one frame advances the ball by one velocity step, as in the app.
- Game.Tick: does not cover a window narrower than 80 or shorter than 250, because the properties (the ball inside the walls, y ≥ 0 after a paddle snap) need the screen to fit the paddle and the start position.
