/** The game session: its state record, the per-frame step of the game loop,
    the start action, the paddle's drag handler, the end-of-grid check, and
    the controller that drives them. */
module Game {
  import opened Geometry
  import opened Blocks
  import opened Physics

  /** Points awarded for each destroyed block. */
  const BlockReward: nat := 10

  /** Everything the game keeps between frames. There is no separate "won"
      phase: a cleared grid ends the game through the same two flags as a
      lost ball. */
  datatype State = State(
    ball: Ball,
    paddleX: real,
    blocks: seq<Block>,
    score: nat,
    gameStarted: bool,
    gameOver: bool)

  /** The score counts each destroyed block once. */
  predicate ScoreConsistent(s: State) {
    s.score == BlockReward * CountDestroyed(s.blocks)
  }

  /** Two grids with the same blocks in the same places, whatever their
      destroyed flags. */
  predicate SameLayout(a: seq<Block>, b: seq<Block>) {
    && |a| == |b|
    && forall i :: 0 <= i < |a| ==> a[i].id == b[i].id && a[i].x == b[i].x && a[i].y == b[i].y
  }

  /** What holds of every state the session can reach. */
  predicate Invariant(sc: Screen, s: State) {
    && ScoreConsistent(s)
    && 0.0 <= s.paddleX <= sc.width - PaddleWidth
    && 0.0 <= s.ball.x <= sc.width - BallSize
    && s.ball.y >= 0.0
    && !(s.gameStarted && s.gameOver)
    && (|s.blocks| == 0 || SameLayout(s.blocks, InitialBlocks()))
  }

  /** The state when the app first loads: neither started nor over, no grid. */
  function InitialState(sc: Screen): (r: State)
    requires ValidScreen(sc)
    ensures !r.gameStarted && !r.gameOver && r.score == 0 && r.blocks == []
    ensures Invariant(sc, r)
  {
    State(Ball(sc.width / 2.0, sc.height - 200.0, 3.0, -3.0),
          sc.width / 2.0 - PaddleWidth / 2.0, [], 0, false, false)
  }

  /** The start action: a fresh session that owes nothing to the state it
      replaces. */
  function StartGame(sc: Screen): (r: State)
    requires ValidScreen(sc)
    ensures r.gameStarted && !r.gameOver && r.score == 0
    ensures |r.blocks| == 20 && AllIntact(r.blocks)
    ensures r.ball.x + BallSize / 2.0 == sc.width / 2.0
    ensures r.paddleX + PaddleWidth / 2.0 == sc.width / 2.0
    ensures r.ball.y == sc.height - 250.0 && r.ball.vx == 2.0 && r.ball.vy == -4.0
    ensures r.blocks == InitialBlocks()
    ensures Invariant(sc, r)
  {
    var blocks := InitialBlocks();
    IntactCountsZero(blocks);
    State(Ball(sc.width / 2.0 - BallSize / 2.0, sc.height - 250.0, 2.0, -4.0),
          sc.width / 2.0 - PaddleWidth / 2.0, blocks, 0, true, false)
  }

  /** The drag handler's paddle position: the finger's x less half a
      paddle, kept inside the screen. */
  function ClampPaddle(sc: Screen, absoluteX: real): (r: real)
    requires ValidScreen(sc)
    ensures 0.0 <= r <= sc.width - PaddleWidth
    ensures 0.0 <= absoluteX - PaddleWidth / 2.0 <= sc.width - PaddleWidth ==>
      r == absoluteX - PaddleWidth / 2.0
    ensures absoluteX - PaddleWidth / 2.0 < 0.0 ==> r == 0.0
    ensures absoluteX - PaddleWidth / 2.0 > sc.width - PaddleWidth ==> r == sc.width - PaddleWidth
  {
    Max(0.0, Min(sc.width - PaddleWidth, absoluteX - PaddleWidth / 2.0))
  }

  /** Dragging to where the paddle already is leaves it there. */
  lemma ClampPaddleIdempotent(sc: Screen, absoluteX: real)
    requires ValidScreen(sc)
    ensures ClampPaddle(sc, ClampPaddle(sc, absoluteX) + PaddleWidth / 2.0) == ClampPaddle(sc, absoluteX)
  {
  }

  function MovePaddle(sc: Screen, s: State, absoluteX: real): (r: State)
    requires ValidScreen(sc)
    ensures r == s.(paddleX := r.paddleX) && 0.0 <= r.paddleX <= sc.width - PaddleWidth
    ensures r.paddleX == ClampPaddle(sc, absoluteX)
  {
    s.(paddleX := ClampPaddle(sc, absoluteX))
  }

  /** The block stage of a frame: the first standing block the ball overlaps,
      in index order, is destroyed, scores the reward, and turns the ball's
      vertical velocity around; every other block is left as it was. */
  function BlockStage(s: State): (r: State)
    ensures r.paddleX == s.paddleX && r.gameStarted == s.gameStarted && r.gameOver == s.gameOver
    ensures r.ball.x == s.ball.x && r.ball.y == s.ball.y && r.ball.vx == s.ball.vx
    ensures SameLayout(r.blocks, s.blocks)
    ensures (forall i :: 0 <= i < |s.blocks| ==> !Hittable(s.ball, s.blocks[i])) ==> r == s
    ensures forall i :: 0 <= i < |s.blocks| && Hittable(s.ball, s.blocks[i])
                        && (forall j :: 0 <= j < i ==> !Hittable(s.ball, s.blocks[j])) ==>
      && r.blocks[i].destroyed
      && (forall j :: 0 <= j < |s.blocks| && j != i ==> r.blocks[j] == s.blocks[j])
      && r.score == s.score + BlockReward
      && r.ball.vy == -s.ball.vy
    ensures ScoreConsistent(s) ==> ScoreConsistent(r)
  {
    match FirstHit(s.ball, s.blocks)
    case NoHit => s
    case HitAt(i) =>
      DestroyCountsOnce(s.blocks, i);
      s.(ball := s.ball.(vy := -s.ball.vy),
         blocks := Destroy(s.blocks, i),
         score := s.score + BlockReward)
  }

  /** The ball after the first two stages of a frame: moved, then kept
      inside the walls. */
  function WalledBall(sc: Screen, s: State): Ball
    requires ValidScreen(sc)
  {
    WallClamp(sc, Integrate(s.ball))
  }

  /** The ball after the paddle stage of a frame that keeps the ball. */
  function Bounced(sc: Screen, s: State): Ball
    requires ValidScreen(sc)
  {
    PaddleBounce(sc, s.paddleX, WalledBall(sc, s))
  }

  /** One pass of the game loop. A ball past the floor line ends the game
      at once, before the paddle and the blocks are looked at; otherwise the
      paddle stage and then the block stage run on the walled ball. */
  function Tick(sc: Screen, s: State): (r: State)
    requires ValidScreen(sc)
    ensures 0.0 <= r.ball.x <= sc.width - BallSize && r.ball.y >= 0.0
    ensures r.paddleX == s.paddleX
    ensures SameLayout(r.blocks, s.blocks)
    ensures forall i :: 0 <= i < |s.blocks| && s.blocks[i].destroyed ==> r.blocks[i] == s.blocks[i]
    ensures BallLost(sc, WalledBall(sc, s)) ==>
      && r.gameOver && !r.gameStarted
      && r.blocks == s.blocks && r.score == s.score
      && r.ball == WalledBall(sc, s) && r.ball.vy == s.ball.vy
    ensures !BallLost(sc, WalledBall(sc, s)) ==>
      r.gameOver == s.gameOver && r.gameStarted == s.gameStarted
    ensures r.score == s.score ==> r.blocks == s.blocks
    ensures r.score != s.score ==>
      && r.score == s.score + BlockReward
      && exists i :: 0 <= i < |s.blocks| && !s.blocks[i].destroyed && r.blocks[i].destroyed
                     && forall j :: 0 <= j < |s.blocks| && j != i ==> r.blocks[j] == s.blocks[j]
    ensures ScoreConsistent(s) ==> ScoreConsistent(r)
    ensures !BallLost(sc, WalledBall(sc, s)) ==>
      r == BlockStage(s.(ball := Bounced(sc, s)))
  {
    var b := WalledBall(sc, s);
    if BallLost(sc, b) then
      s.(ball := b, gameOver := true, gameStarted := false)
    else
      BlockStage(s.(ball := Bounced(sc, s)))
  }

  /** A frame that meets no wall, stays above the floor line, misses the
      paddle and overlaps no standing block moves the ball by exactly its
      velocity and changes nothing else. */
  lemma FreeFlight(sc: Screen, s: State)
    requires ValidScreen(sc)
    requires 0.0 <= Integrate(s.ball).x <= sc.width - BallSize
    requires 0.0 <= Integrate(s.ball).y < FloorY(sc)
    requires !PaddleContact(sc, s.paddleX, Integrate(s.ball))
    requires forall i :: 0 <= i < |s.blocks| ==> !Hittable(Integrate(s.ball), s.blocks[i])
    ensures Tick(sc, s) == s.(ball := Integrate(s.ball))
  {
  }

  /** On a frame that keeps the ball and finds no standing block under the
      paddle-stage ball, only the ball changes, to the paddle-stage ball. */
  lemma TickMissesBlocks(sc: Screen, s: State)
    requires ValidScreen(sc) && !BallLost(sc, WalledBall(sc, s))
    requires forall i :: 0 <= i < |s.blocks| ==> !Hittable(Bounced(sc, s), s.blocks[i])
    ensures Tick(sc, s) == s.(ball := Bounced(sc, s))
  {
    assert Tick(sc, s) == BlockStage(s.(ball := Bounced(sc, s)));
  }

  /** On a frame that keeps the ball, the lowest-index standing block under
      the paddle-stage ball is destroyed, scores the reward, and turns that
      ball's vertical velocity around; every other block is left as it was. */
  lemma TickHitsBlock(sc: Screen, s: State, i: nat)
    requires ValidScreen(sc) && !BallLost(sc, WalledBall(sc, s))
    requires i < |s.blocks| && Hittable(Bounced(sc, s), s.blocks[i])
    requires forall j :: 0 <= j < i ==> !Hittable(Bounced(sc, s), s.blocks[j])
    ensures Tick(sc, s).blocks[i].destroyed
    ensures forall j :: 0 <= j < |s.blocks| && j != i ==> Tick(sc, s).blocks[j] == s.blocks[j]
    ensures Tick(sc, s).score == s.score + BlockReward
    ensures Tick(sc, s).ball == Bounced(sc, s).(vy := -Bounced(sc, s).vy)
  {
    var t := s.(ball := Bounced(sc, s));
    var r := BlockStage(t);
    assert Tick(sc, s) == r;
    assert r.blocks[i].destroyed && r.score == s.score + BlockReward && r.ball.vy == -t.ball.vy;
  }

  /** The completion check: once every block of a non-empty grid is
      destroyed during a session, the session ends. */
  function CheckCompletion(s: State): (r: State)
    ensures |s.blocks| > 0 && AllDestroyed(s.blocks) && s.gameStarted ==>
      r.gameOver && !r.gameStarted && r == s.(gameOver := r.gameOver, gameStarted := r.gameStarted)
    ensures !(|s.blocks| > 0 && AllDestroyed(s.blocks) && s.gameStarted) ==> r == s
  {
    NoneRemainingIffAllDestroyed(s.blocks);
    if |Remaining(s.blocks)| == 0 && |s.blocks| > 0 && s.gameStarted then
      s.(gameOver := true, gameStarted := false)
    else s
  }

  /** One animation frame as the session sees it: the loop runs only while
      the game is started, and the completion check follows the frame. */
  function Frame(sc: Screen, s: State): (r: State)
    requires ValidScreen(sc)
    ensures !s.gameStarted ==> r == s
    ensures s.gameStarted && !r.gameStarted ==>
      r.gameOver && (BallLost(sc, WalledBall(sc, s)) || (|r.blocks| > 0 && AllDestroyed(r.blocks)))
    ensures s.gameStarted && r.gameStarted ==>
      r.gameOver == s.gameOver && !BallLost(sc, WalledBall(sc, s))
      && !(|r.blocks| > 0 && AllDestroyed(r.blocks))
    ensures s.gameStarted ==>
      && r.ball == Tick(sc, s).ball && r.blocks == Tick(sc, s).blocks
      && r.score == Tick(sc, s).score && r.paddleX == s.paddleX
  {
    if s.gameStarted then CheckCompletion(Tick(sc, s)) else s
  }

  /** Every frame keeps the session invariant. */
  lemma FramePreservesInvariant(sc: Screen, s: State)
    requires ValidScreen(sc) && Invariant(sc, s)
    ensures Invariant(sc, Frame(sc, s))
  {
    if s.gameStarted {
      var t := Tick(sc, s);
      assert ScoreConsistent(t);
      if |s.blocks| > 0 {
        var init := InitialBlocks();
        forall i | 0 <= i < |t.blocks|
          ensures t.blocks[i].id == init[i].id && t.blocks[i].x == init[i].x && t.blocks[i].y == init[i].y
        {
          assert t.blocks[i].id == s.blocks[i].id && t.blocks[i].x == s.blocks[i].x && t.blocks[i].y == s.blocks[i].y;
        }
      }
      assert Invariant(sc, t);
      assert Frame(sc, s) == CheckCompletion(t);
    }
  }

  /** What the player and the screen can do to a session. */
  datatype Input = Start | Drag(absoluteX: real) | Animate

  function Step(sc: Screen, s: State, input: Input): State
    requires ValidScreen(sc)
  {
    match input
    case Start => StartGame(sc)
    case Drag(x) => MovePaddle(sc, s, x)
    case Animate => Frame(sc, s)
  }

  function Run(sc: Screen, s: State, inputs: seq<Input>): State
    requires ValidScreen(sc)
    decreases |inputs|
  {
    if |inputs| == 0 then s else Run(sc, Step(sc, s, inputs[0]), inputs[1..])
  }

  /** From the state the app loads in, no sequence of starts, drags and
      frames breaks the session invariant; in particular the score is always
      ten times the number of destroyed blocks. */
  lemma {:induction false} RunPreservesInvariant(sc: Screen, s: State, inputs: seq<Input>)
    requires ValidScreen(sc) && Invariant(sc, s)
    ensures Invariant(sc, Run(sc, s, inputs))
    decreases |inputs|
  {
    if |inputs| > 0 {
      var next := Step(sc, s, inputs[0]);
      if inputs[0].Animate? {
        FramePreservesInvariant(sc, s);
      }
      RunPreservesInvariant(sc, next, inputs[1..]);
    }
  }

  /** A cleared grid in a reachable state is worth 200 points. */
  lemma ClearedGridScore(sc: Screen, s: State)
    requires Invariant(sc, s) && |s.blocks| > 0 && AllDestroyed(s.blocks)
    ensures s.score == 200
  {
    CountDestroyedFull(s.blocks);
  }
}
