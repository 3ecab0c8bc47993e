/** Shared vocabulary of the block-breaker game: the fixed sizes of the
    paddle, the ball and the blocks, the play-area dimensions, the two
    entity records that carry positions, and the two rectangle tests the
    game loop uses. All coordinates are exact rationals (`real`); the
    y axis grows downward, as on the device screen. */
module Geometry {

  const PaddleWidth: real := 80.0
  const PaddleHeight: real := 10.0
  const BallSize: real := 15.0
  const BlockWidth: real := 60.0
  const BlockHeight: real := 20.0
  const BlocksPerRow: nat := 5
  const BlockRows: nat := 4

  /** Gap between neighbouring blocks, horizontally and vertically. */
  const BlockGap: real := 5.0
  /** Offset of the top-left block from the play-area origin. */
  const GridLeft: real := 20.0
  const GridTop: real := 100.0

  /** The window dimensions the game reads once at load time. */
  datatype Screen = Screen(width: real, height: real)

  /** The device window is at least a paddle wide, and tall enough that the
      ball's start position (250 above the bottom edge) is on screen. */
  predicate ValidScreen(sc: Screen) {
    sc.width >= 80.0 && sc.height >= 250.0
  }

  /** The ball's top-left corner and its per-frame velocity. */
  datatype Ball = Ball(x: real, y: real, vx: real, vy: real)

  /** One block of the grid; its display colour has no behavioural role and
      is not part of the model. */
  datatype Block = Block(id: nat, x: real, y: real, destroyed: bool)

  function Abs(v: real): (r: real)
    ensures r >= 0.0 && (r == v || r == -v)
  {
    if v < 0.0 then -v else v
  }

  function Min(a: real, b: real): (r: real)
    ensures r <= a && r <= b && (r == a || r == b)
  {
    if a <= b then a else b
  }

  function Max(a: real, b: real): (r: real)
    ensures r >= a && r >= b && (r == a || r == b)
  {
    if a >= b then a else b
  }

  /** The ball's box overlaps a block's box. Every bound is strict, so a
      ball that only touches a block's edge does not hit it. */
  predicate OverlapsBlock(b: Ball, k: Block) {
    && b.x < k.x + BlockWidth
    && b.x + BallSize > k.x
    && b.y < k.y + BlockHeight
    && b.y + BallSize > k.y
  }

  /** The ball's box meets the paddle's box, whose top edge is at `paddleY`.
      Every bound is non-strict, so touching an edge counts. */
  predicate TouchesPaddle(b: Ball, paddleX: real, paddleY: real) {
    && b.y + BallSize >= paddleY
    && b.y <= paddleY + PaddleHeight
    && b.x + BallSize >= paddleX
    && b.x <= paddleX + PaddleWidth
  }
}
