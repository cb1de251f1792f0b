/**
 * The server's game-state types (multiplayer/src/games_server/all_games_state/game_state.rs):
 * directions, snakes as a run-length encoded body, and the three phases of a game.
 */
module SnakeState {
  import opened Wrappers

  /** A coordinate as the server stores it, an unsigned 32-bit integer. */
  type Coord = x: int | 0 <= x < 0x1_0000_0000

  /** A board cell `(x, y)`. */
  type Point = (Coord, Coord)

  datatype Direction = Up | Down | Left | Right

  predicate IsVertical(d: Direction) {
    d == Up || d == Down
  }

  /** The reverse heading: the other direction on the same axis. */
  function Opposite(d: Direction): (r: Direction)
    ensures r != d
    ensures IsVertical(r) == IsVertical(d)
  {
    match d
    case Up => Down
    case Down => Up
    case Left => Right
    case Right => Left
  }

  lemma OppositeInvolutive(d: Direction)
    ensures Opposite(Opposite(d)) == d
  {
  }

  /** One run of the body: the direction in which the body continues and how many cells it covers. */
  type Block = (Direction, nat)

  datatype AliveSnake = AliveSnake(
    userId: string,
    head: Point,
    headDirection: Direction,
    blocks: seq<Block>,
    invulnerableFor: Option<nat>,
    frozenFor: Option<nat>,
    hasExtraLife: bool)

  datatype Snake =
    | Alive(snake: AliveSnake)
    | Dead(userId: string, head: Point, ticksToRevive: Option<nat>)
  {
    function UserId(): string {
      match this
      case Alive(s) => s.userId
      case Dead(u, _, _) => u
    }

    function Head(): Point {
      match this
      case Alive(s) => s.head
      case Dead(_, h, _) => h
    }
  }

  datatype GameState =
    | WaitingForPlayers(readyStatus: map<string, bool>)
    | Playing(snakes: map<string, Snake>, apples: seq<Point>, amountsSpent: map<string, real>)
    | GameOver(winner: string, amountsSpentList: seq<(string, real)>)

  /** Total number of body cells a run-length body describes. */
  function SumLengths(blocks: seq<Block>): nat {
    if blocks == [] then 0 else blocks[0].1 + SumLengths(blocks[1..])
  }

  /** A body the engine can work on: at least one block, and no block of length zero. */
  predicate WellFormed(blocks: seq<Block>) {
    |blocks| >= 1 && forall i :: 0 <= i < |blocks| ==> blocks[i].1 >= 1
  }
}
