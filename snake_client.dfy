/**
 * The browser client of the snake game (frontend/src/snake/SnakeGame.tsx): the handler that
 * folds server messages into four pieces of view state, and the small pure helpers behind the
 * buttons and keys.
 *
 * The handler follows the code as written: it has no phase guard, so a `ReadyStatus` after
 * `StartGame` brings the lobby back and a `GameState` after `GameOver` is still applied. The
 * `dead` view is updated only while the canvas is mounted, because that update sits inside
 * the drawing branch; whether it is mounted is a parameter.
 */
module SnakeClient {
  import opened Wrappers
  import opened SnakeState
  import opened PowerUpTypes
  import opened ClientMessages
  import opened PowerUpCostLoader
  import opened ServerMessages

  /** `readyStates`: the last lobby listing, or `'started'`. */
  datatype ReadyView = Statuses(status: seq<ReadyStatus>) | Started

  /** `dead`: `false`, or the revive countdown of the local snake. */
  datatype DeadView = NotDead | DeadFor(reviveLeft: nat, reviveTotal: nat)

  datatype GameResult = GameResult(winner: string, amountsSpent: seq<AmountSpent>)

  /** The four state cells the handler writes. */
  datatype View = View(readyStates: ReadyView, recentPowerups: seq<RecentPowerUp>, dead: DeadView,
                       gameOver: Option<GameResult>)

  /** The revive bar's full length (line 92). */
  const ReviveTotal: nat := 100

  function InitialView(): View {
    View(Statuses([]), [], NotDead, None)
  }

  /** The effect on `dead` of the snakes of a snapshot, read in order (lines 89-95). */
  function DeadAfter(d: DeadView, me: string, snakes: seq<SentSnake>): DeadView
    decreases |snakes|
  {
    if snakes == [] then d
    else
      var n := |snakes|;
      var before := DeadAfter(d, me, snakes[..n - 1]);
      var s := snakes[n - 1];
      if s.userId == me && s.Dead? then DeadFor(s.reviveLeft, ReviveTotal)
      else if s.userId == me then NotDead
      else before
  }

  /** One message through the handler (lines 74-134). */
  function Step(v: View, me: string, msg: ServerMessage, canvasMounted: bool): View {
    match msg
    case GameState(_, snakes, _, recent) =>
      var dead := if canvasMounted then DeadAfter(v.dead, me, snakes) else v.dead;
      v.(dead := dead, recentPowerups := v.recentPowerups + recent)
    case ReadyStatus(status) => v.(readyStates := Statuses(status))
    case StartGame => v.(readyStates := Started)
    case GameOver(w, amounts) => v.(gameOver := Some(GameResult(w, amounts)))
    case Authenticated => v
  }

  /** A stream of messages through the handler. */
  function Reduce(v: View, me: string, msgs: seq<ServerMessage>, canvasMounted: bool): View
    decreases |msgs|
  {
    if msgs == [] then v
    else Reduce(Step(v, me, msgs[0], canvasMounted), me, msgs[1..], canvasMounted)
  }

  /** The power-ups a stream of messages reports, in order. */
  function ReportedPowerUps(msgs: seq<ServerMessage>): seq<RecentPowerUp>
    decreases |msgs|
  {
    if msgs == [] then []
    else (if msgs[0].GameState? then msgs[0].recentPowerUps else []) + ReportedPowerUps(msgs[1..])
  }

  /** The local snake's last entry in a snapshot, if it has one. */
  function LastOwnEntry(me: string, snakes: seq<SentSnake>): (r: Option<nat>)
    ensures r.Some? ==> r.value < |snakes| && snakes[r.value].userId == me &&
                        forall j :: r.value < j < |snakes| ==> snakes[j].userId != me
    ensures r.None? ==> forall j :: 0 <= j < |snakes| ==> snakes[j].userId != me
    decreases |snakes|
  {
    if snakes == [] then None
    else if snakes[|snakes| - 1].userId == me then Some(|snakes| - 1)
    else LastOwnEntry(me, snakes[..|snakes| - 1])
  }

  /**
   * `dead` follows the local snake's last entry in the snapshot: dead with its countdown out of
   * `ReviveTotal`, or not dead; a snapshot without the local snake leaves it as it was.
   */
  lemma {:induction false} DeadFollowsLastEntry(d: DeadView, me: string, snakes: seq<SentSnake>)
    ensures
      match LastOwnEntry(me, snakes)
      case None => DeadAfter(d, me, snakes) == d
      case Some(i) =>
        DeadAfter(d, me, snakes) == if snakes[i].Dead? then DeadFor(snakes[i].reviveLeft, ReviveTotal) else NotDead
    decreases |snakes|
  {
    if snakes != [] {
      DeadFollowsLastEntry(d, me, snakes[..|snakes| - 1]);
    }
  }

  /** The power-up log only grows: each message appends what it reports, in order. */
  lemma {:induction false} LogIsAppendOnly(v: View, me: string, msgs: seq<ServerMessage>, canvasMounted: bool)
    ensures Reduce(v, me, msgs, canvasMounted).recentPowerups == v.recentPowerups + ReportedPowerUps(msgs)
    decreases |msgs|
  {
    if msgs != [] {
      var v' := Step(v, me, msgs[0], canvasMounted);
      LogIsAppendOnly(v', me, msgs[1..], canvasMounted);
      assert v'.recentPowerups == v.recentPowerups + (if msgs[0].GameState? then msgs[0].recentPowerUps else []);
    }
  }

  /** No phase guard: a lobby listing after the start replaces `'started'`. */
  lemma ReadyStatusAfterStartReopensLobby(v: View, me: string, status: seq<ReadyStatus>, canvasMounted: bool)
    ensures Step(v, me, ServerMessage.StartGame, canvasMounted).readyStates == Started
    ensures Step(Step(v, me, ServerMessage.StartGame, canvasMounted), me, ServerMessage.ReadyStatus(status),
                 canvasMounted).readyStates == Statuses(status)
  {
  }

  /** No phase guard: a snapshot after the result is still applied, and the result stays. */
  lemma GameStateAfterGameOverApplies(v: View, me: string, w: string, amounts: seq<AmountSpent>,
                                      apples: seq<Point>, snakes: seq<SentSnake>, recent: seq<RecentPowerUp>)
    ensures
      var v' := Step(Step(v, me, ServerMessage.GameOver(w, amounts), true), me,
                     ServerMessage.GameState(apples, snakes, [], recent), true);
      && v'.gameOver == Some(GameResult(w, amounts))
      && v'.recentPowerups == v.recentPowerups + recent
      && v'.dead == DeadAfter(v.dead, me, snakes)
  {
  }

  /** One player's page: its user, the players in display order, and the handler's state. */
  class Session {
    const userId: string
    const orderedKeys: seq<string>
    var readyStates: ReadyView
    var recentPowerups: seq<RecentPowerUp>
    var dead: DeadView
    var gameOver: Option<GameResult>

    function ViewOf(): View
      reads this
    {
      View(readyStates, recentPowerups, dead, gameOver)
    }

    constructor (user: string, keys: seq<string>)
      ensures userId == user && orderedKeys == keys
      ensures ViewOf() == InitialView()
    {
      userId := user;
      orderedKeys := keys;
      readyStates := Statuses([]);
      recentPowerups := [];
      dead := NotDead;
      gameOver := None;
    }

    /** The `message` listener (lines 74-134). */
    method Handle(msg: ServerMessage, canvasMounted: bool)
      modifies this
      ensures ViewOf() == Step(old(ViewOf()), userId, msg, canvasMounted)
    {
      match msg {
        case GameState(_, snakes, _, recent) =>
          if canvasMounted {
            for i := 0 to |snakes|
              invariant dead == DeadAfter(old(dead), userId, snakes[..i])
              invariant readyStates == old(readyStates) && recentPowerups == old(recentPowerups)
              invariant gameOver == old(gameOver)
            {
              assert snakes[..i + 1][..i] == snakes[..i];
              var s := snakes[i];
              if s.userId == userId && s.Dead? {
                dead := DeadFor(s.reviveLeft, ReviveTotal);
              } else if s.userId == userId {
                dead := NotDead;
              }
            }
            assert snakes[..|snakes|] == snakes;
          }
          if |recent| > 0 {
            recentPowerups := recentPowerups + recent;
          }
        case ReadyStatus(status) =>
          readyStates := Statuses(status);
        case StartGame =>
          readyStates := Started;
        case GameOver(w, amounts) =>
          gameOver := Some(GameResult(w, amounts));
        case Authenticated =>
      }
    }
  }

  // ---------------------------------------------------------------- buttons and keys

  /** `getPowerupCost` (lines 29-41): the prices the client shows. */
  function PowerupCost(p: PowerUp): real {
    match p
    case Revive => 10.0
    case ShrinkOpponent(_) => 3.0
    case ExtraLife => 5.0
    case FreezeOpponent(_) => 3.0
    case AddLength => 1.0
  }

  /** The client's prices agree with the server's defaults except for the freeze, shown as 3 but charged 5. */
  lemma ClientPricesMatchServerExceptFreeze(p: PowerUp)
    ensures PowerupCost(p) == GetCost(Default(), p) <==> !p.FreezeOpponent?
    ensures p.FreezeOpponent? ==> PowerupCost(p) < GetCost(Default(), p)
  {
  }

  /** The key each heading is bound to (lines 136-160). */
  function ArrowKey(d: Direction): string {
    match d
    case Up => "ArrowUp"
    case Down => "ArrowDown"
    case Left => "ArrowLeft"
    case Right => "ArrowRight"
  }

  /** The `keydown` listener: the message a key sends, if any. */
  function KeyCommand(code: string): Option<ClientMessage> {
    if code == "ArrowUp" then Some(SetDirection(Up))
    else if code == "ArrowDown" then Some(SetDirection(Down))
    else if code == "ArrowLeft" then Some(SetDirection(Left))
    else if code == "ArrowRight" then Some(SetDirection(Right))
    else None
  }

  /** Each arrow key sends exactly the turn to its heading, and no other key sends anything. */
  lemma KeyCommandInvertsArrowKey(code: string, d: Direction)
    ensures KeyCommand(ArrowKey(d)) == Some(SetDirection(d))
    ensures KeyCommand(code).Some? <==> exists e :: code == ArrowKey(e)
    ensures KeyCommand(code).Some? ==> KeyCommand(code).value.SetDirection? && ArrowKey(KeyCommand(code).value.direction) == code
  {
    if code == "ArrowUp" {
      assert code == ArrowKey(Up);
    } else if code == "ArrowDown" {
      assert code == ArrowKey(Down);
    } else if code == "ArrowLeft" {
      assert code == ArrowKey(Left);
    } else if code == "ArrowRight" {
      assert code == ArrowKey(Right);
    }
  }

  /** `readyStates.find(...)`: the first listing entry of `me`. */
  function FindStatus(status: seq<ReadyStatus>, me: string): (r: Option<nat>)
    ensures r.Some? ==> r.value < |status| && status[r.value].userId == me &&
                        forall j :: 0 <= j < r.value ==> status[j].userId != me
    ensures r.None? ==> forall j :: 0 <= j < |status| ==> status[j].userId != me
    decreases |status|
  {
    if status == [] then None
    else if status[0].userId == me then Some(0)
    else
      var r := FindStatus(status[1..], me);
      if r.Some? then Some(r.value + 1) else None
  }

  /** The ready button (lines 414-416): the negation of the local flag, `true` when there is none. */
  function ReadyToggle(status: seq<ReadyStatus>, me: string): (m: ClientMessage)
    ensures m.SetReady?
    ensures FindStatus(status, me).None? ==> m.ready
    ensures FindStatus(status, me).Some? ==> m.ready == !status[FindStatus(status, me).value].ready
  {
    match FindStatus(status, me)
    case Some(i) => SetReady(!status[i].ready)
    case None => SetReady(true)
  }

  /** The other players, in display order. */
  function AllButMe(keys: seq<string>, me: string): (r: seq<string>)
    ensures forall x :: x in r <==> x in keys && x != me
    decreases |keys|
  {
    if keys == [] then []
    else (if keys[0] != me then [keys[0]] else []) + AllButMe(keys[1..], me)
  }

  /**
   * `randOpponent` (lines 175-178) with the random draw `rnd` in [0, 1): the other player at
   * index `floor(rnd * count)`; with nobody else there is none (the source yields `undefined`).
   */
  function RandOpponent(keys: seq<string>, me: string, rnd: real): (r: Option<string>)
    requires 0.0 <= rnd < 1.0
    ensures r.Some? ==> r.value in keys && r.value != me
    ensures r.None? <==> forall k :: k in keys ==> k == me
  {
    var others := AllButMe(keys, me);
    if |others| == 0 then None
    else
      var i := (rnd * |others| as real).Floor;
      FloorInRange(rnd, |others|);
      assert others[i] in others;
      Some(others[i])
  }

  lemma FloorInRange(rnd: real, n: nat)
    requires 0.0 <= rnd < 1.0 && n > 0
    ensures 0 <= (rnd * n as real).Floor < n
  {
    assert rnd * n as real < n as real by {
      assert (1.0 - rnd) * n as real > 0.0;
    }
  }
}
