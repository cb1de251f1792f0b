/**
 * What the game server sends to clients (multiplayer/src/games_server/server_message.rs; the
 * client's copy in frontend/src/snake/ServerMessage.ts has the same shape), and the projection
 * of a snake onto its wire form.
 */
module ServerMessages {
  import opened Wrappers
  import opened SnakeState
  import opened PowerUpTypes

  /** A snake as clients see it: timers become flags, a dead snake loses its head. */
  datatype SentSnake =
    | Alive(userId: string, head: Point, headDirection: Direction, blocks: seq<Block>,
            invulnerable: bool, frozen: bool, hasExtraLife: bool)
    | Dead(userId: string, reviveLeft: nat)

  datatype ReadyStatus = ReadyStatus(userId: string, ready: bool)

  datatype AmountSpent = AmountSpent(userId: string, amountSpent: real)

  datatype RecentPowerUp = RecentPowerUp(userId: string, powerUp: PowerUp)

  datatype ServerMessage =
    | Authenticated
    | ReadyStatus(status: seq<ReadyStatus>)
    | StartGame
    | GameOver(winner: string, amountsSpent: seq<AmountSpent>)
    | GameState(apples: seq<Point>, snakes: seq<SentSnake>, justAteApple: seq<string>,
                recentPowerUps: seq<RecentPowerUp>)

  /** The remaining revive countdown as sent: an expired countdown reads as zero. */
  function ReviveLeft(t: Option<nat>): nat {
    match t
    case Some(n) => n
    case None => 0
  }

  /** The wire form of a snake (`Into<SentSnake> for &Snake`). */
  function ToSent(s: Snake): (r: SentSnake)
    ensures r.Alive? <==> s.Alive?
    ensures r.userId == s.UserId()
    ensures s.Alive? ==> && r.head == s.snake.head && r.headDirection == s.snake.headDirection
                         && r.blocks == s.snake.blocks && r.hasExtraLife == s.snake.hasExtraLife
                         && r.invulnerable == s.snake.invulnerableFor.Some?
                         && r.frozen == s.snake.frozenFor.Some?
    ensures s.Dead? ==> r.reviveLeft == ReviveLeft(s.ticksToRevive)
  {
    match s
    case Alive(a) =>
      SentSnake.Alive(a.userId, a.head, a.headDirection, a.blocks,
                      a.invulnerableFor.Some?, a.frozenFor.Some?, a.hasExtraLife)
    case Dead(u, _, t) => SentSnake.Dead(u, ReviveLeft(t))
  }

  /**
   * What a client can still tell apart about two snakes: the tag, the owner, and for a live
   * snake everything but the timer values; for a dead one only the countdown.
   */
  predicate SameOnWire(a: Snake, b: Snake) {
    && a.Alive? == b.Alive?
    && a.UserId() == b.UserId()
    && (a.Alive? ==> && a.snake.head == b.snake.head && a.snake.headDirection == b.snake.headDirection
                     && a.snake.blocks == b.snake.blocks && a.snake.hasExtraLife == b.snake.hasExtraLife
                     && a.snake.invulnerableFor.Some? == b.snake.invulnerableFor.Some?
                     && a.snake.frozenFor.Some? == b.snake.frozenFor.Some?)
    && (a.Dead? ==> ReviveLeft(a.ticksToRevive) == ReviveLeft(b.ticksToRevive))
  }

  /** The projection forgets exactly what `SameOnWire` ignores. */
  lemma ToSentKernel(a: Snake, b: Snake)
    ensures ToSent(a) == ToSent(b) <==> SameOnWire(a, b)
  {
  }

  /** A dead snake whose countdown ran out and one with zero ticks left look the same to clients. */
  lemma ExpiredCountdownLooksLikeZero(u: string, h: Point)
    ensures ToSent(Snake.Dead(u, h, None)) == ToSent(Snake.Dead(u, h, Some(0)))
  {
  }
}
