/** The ball's motion within one frame, before any block is considered:
    integrating the velocity, saturating against the three walls, and the
    rebound off the paddle with its steering and speed cap. */
module Physics {
  import opened Geometry

  /** Horizontal speed the ball may leave the paddle with, at most. */
  const MaxSpeedX: real := 6.0
  /** Horizontal velocity added per unit of distance between the ball's
      centre and the paddle's centre on a paddle hit. */
  const SteeringFactor: real := 0.08
  /** Distance of the paddle's top edge above the bottom of the screen. */
  const PaddleLift: real := 100.0
  /** Distance above the bottom of the screen at which the ball is lost. */
  const FloorMargin: real := 50.0

  function PaddleY(sc: Screen): real {
    sc.height - PaddleLift
  }

  function FloorY(sc: Screen): real {
    sc.height - FloorMargin
  }

  /** One frame of motion: the position advances by the velocity. */
  function Integrate(b: Ball): (r: Ball)
    ensures r.x - b.x == b.vx && r.y - b.y == b.vy
    ensures r.vx == b.vx && r.vy == b.vy
  {
    b.(x := b.x + b.vx, y := b.y + b.vy)
  }

  /** The left, right and top wall checks, in that order. A wall hit puts
      the ball back on the wall and points the matching velocity component
      away from it, whatever its previous sign. */
  function WallClamp(sc: Screen, b: Ball): (r: Ball)
    requires ValidScreen(sc)
    ensures 0.0 <= r.x <= sc.width - BallSize && r.y >= 0.0
    ensures Abs(r.vx) == Abs(b.vx) && Abs(r.vy) == Abs(b.vy)
    ensures b.x < 0.0 ==> r.x == 0.0 && r.vx >= 0.0
    ensures b.x > sc.width - BallSize ==> r.x == sc.width - BallSize && r.vx <= 0.0
    ensures 0.0 <= b.x <= sc.width - BallSize ==> r.x == b.x && r.vx == b.vx
    ensures b.y < 0.0 ==> r.y == 0.0 && r.vy >= 0.0
    ensures b.y >= 0.0 ==> r.y == b.y && r.vy == b.vy
  {
    var left := if b.x < 0.0 then b.(x := 0.0, vx := Abs(b.vx)) else b;
    var right := if left.x > sc.width - BallSize
                 then left.(x := sc.width - BallSize, vx := -Abs(left.vx))
                 else left;
    if right.y < 0.0 then right.(y := 0.0, vy := Abs(right.vy)) else right
  }

  /** A ball already inside the walls is left alone by the wall checks. */
  lemma WallClampIdempotent(sc: Screen, b: Ball)
    requires ValidScreen(sc)
    ensures WallClamp(sc, WallClamp(sc, b)) == WallClamp(sc, b)
  {
  }

  /** The ball has fallen past the floor line: the frame ends the game. */
  predicate BallLost(sc: Screen, b: Ball) {
    b.y >= FloorY(sc)
  }

  /** The paddle deflects the ball only while it is moving down and its box
      meets the paddle's box. */
  predicate PaddleContact(sc: Screen, paddleX: real, b: Ball) {
    TouchesPaddle(b, paddleX, PaddleY(sc)) && b.vy > 0.0
  }

  /** Limits a horizontal velocity to the interval [-6, 6], keeping its
      direction. */
  function CapSpeed(v: real): (r: real)
    ensures Abs(r) <= MaxSpeedX
    ensures Abs(v) <= MaxSpeedX ==> r == v
    ensures Abs(v) > MaxSpeedX ==> Abs(r) == MaxSpeedX
    ensures (r > 0.0 <==> v > 0.0) && (r < 0.0 <==> v < 0.0)
  {
    if Abs(v) > MaxSpeedX then (if v > 0.0 then MaxSpeedX else -MaxSpeedX) else v
  }

  /** Signed distance from the paddle's centre to the ball's centre. */
  function CentreOffset(paddleX: real, b: Ball): real {
    (b.x + BallSize / 2.0) - (paddleX + PaddleWidth / 2.0)
  }

  /** The paddle stage: on contact the ball is put back on top of the paddle,
      sent upward at its old vertical speed, and steered sideways by where it
      struck the paddle; otherwise nothing changes. */
  function PaddleBounce(sc: Screen, paddleX: real, b: Ball): (r: Ball)
    ensures !PaddleContact(sc, paddleX, b) ==> r == b
    ensures PaddleContact(sc, paddleX, b) ==>
      && r.x == b.x
      && r.y + BallSize == PaddleY(sc)
      && r.vy < 0.0 && r.vy == -b.vy
      && Abs(r.vx) <= MaxSpeedX
      && r.vx == CapSpeed(b.vx + SteeringFactor * CentreOffset(paddleX, b))
  {
    if PaddleContact(sc, paddleX, b) then
      var bounced := b.(y := PaddleY(sc) - BallSize, vy := -Abs(b.vy));
      var steered := bounced.vx + CentreOffset(paddleX, b) * SteeringFactor;
      bounced.(vx := CapSpeed(steered))
    else b
  }

  /** A ball whose centre lands 20 to the right of the paddle's centre gains
      1.6 of horizontal speed before the cap applies. */
  lemma SteeringExample(sc: Screen, paddleX: real, b: Ball)
    requires PaddleContact(sc, paddleX, b)
    requires CentreOffset(paddleX, b) == 20.0 && b.vx == 2.0
    ensures PaddleBounce(sc, paddleX, b).vx == 3.6
  {
  }
}
