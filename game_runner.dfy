/**
 * One tick of a game (multiplayer/src/games_server/game_runner.rs, lines 34-364): the phase
 * step as a function of the state, the inputs of the tick and the map orders, and the runner
 * object whose `Tick` performs it in place.
 *
 * What the source leaves to the runtime is a parameter here: the messages that arrived since
 * the last tick, the random apples of the top-up, and the iteration orders of the hash maps.
 */
module GameRunner {
  import opened Wrappers
  import opened SnakeState
  import opened ClientMessages
  import opened PowerUpCostLoader
  import opened ServerMessages
  import opened GameRules

  datatype TickResult = TickResult(game: GameState, sent: seq<ServerMessage>)

  function PlayerSet(players: seq<string>): set<string> {
    set p | p in players
  }

  /** What the runner keeps true of its game between ticks. */
  predicate ValidState(g: GameState, players: set<string>) {
    match g
    case WaitingForPlayers(ready) => ready.Keys == players
    case Playing(snakes, apples, spent) =>
      && snakes.Keys == players && spent.Keys == players && SnakesValid(snakes)
      && forall p :: p in apples ==> OnBoard(p)
    case GameOver(winner, _) => winner in players
  }

  /**
   * What a tick needs of its inputs: messages come from players of the game (and name players
   * as targets, else the source's `unwrap` panics), the orders list the maps' keys, a game in
   * play has a player (else line 268 panics), and the new apples are what the random top-up
   * can produce.
   */
  predicate InputsOk(g: GameState, players: set<string>, costs: PowerUpCosts, msgs: seq<GameIncomingMessage>,
                     newApples: seq<Point>, readyOrder: seq<string>, snakeOrder: seq<string>, spentOrder: seq<string>)
    requires ValidState(g, players)
  {
    match g
    case WaitingForPlayers(_) =>
      && (forall i :: 0 <= i < |msgs| ==> msgs[i].playerId in players)
      && IsOrderOf(readyOrder, players)
    case Playing(snakes, apples, spent) =>
      && players != {}
      && (forall i :: 0 <= i < |msgs| ==> KnownIds(players, msgs[i]))
      && IsOrderOf(snakeOrder, players) && IsOrderOf(spentOrder, players)
      && FreshApples(ApplyMessages(Round(snakes, spent, []), msgs, costs).snakes, apples, newApples)
    case GameOver(_, _) => true
  }

  /** The lobby (lines 52-69, 322-339): record the ready flags, broadcast them, start once all are set. */
  function LobbyTick(ready: map<string, bool>, msgs: seq<GameIncomingMessage>, readyOrder: seq<string>,
                     allPlayers: seq<string>): TickResult
    requires IsOrderOf(readyOrder, ApplyReady(ready, msgs).Keys)
  {
    var ready' := ApplyReady(ready, msgs);
    var status := ServerMessage.ReadyStatus(ReadyList(ready', readyOrder));
    if AllReady(ready') then TickResult(InitialPlaying(allPlayers), [status, ServerMessage.StartGame])
    else TickResult(GameState.WaitingForPlayers(ready'), [status])
  }

  /** The state of play once messages, new apples, deaths, eating and timers are done, before the move. */
  datatype Settled = Settled(round: Round, snakes: map<string, Snake>, apples: seq<Point>)

  function Settle(snakes: map<string, Snake>, apples: seq<Point>, spent: map<string, real>,
                  msgs: seq<GameIncomingMessage>, newApples: seq<Point>, costs: PowerUpCosts,
                  snakeOrder: seq<string>): (st: Settled)
    requires SnakesValid(snakes) && forall i :: 0 <= i < |msgs| ==> KnownIds(snakes.Keys, msgs[i])
    requires forall i :: 0 <= i < |snakeOrder| ==> snakeOrder[i] in snakes
    ensures st.snakes.Keys == snakes.Keys && SnakesValid(st.snakes)
    ensures spent.Keys == snakes.Keys ==> st.round.spent.Keys == snakes.Keys
    ensures forall p :: p in st.apples ==> p in apples + newApples
  {
    var r1 := ApplyMessages(Round(snakes, spent, []), msgs, costs);
    var s2 := AfterDeaths(r1.snakes);
    var eaten := EatApples(s2, apples + newApples, snakeOrder);
    Settled(r1, DecayAll(eaten.0), eaten.1)
  }

  /** The movement of lines 271-298: the snakes move on every `MoveEveryTicks`-th tick. */
  function AfterMove(snakes: map<string, Snake>, tickCount: nat): (r: map<string, Snake>)
    requires SnakesValid(snakes)
    ensures r.Keys == snakes.Keys && SnakesValid(r)
  {
    if tickCount % MoveEveryTicks == 0 then MoveAll(snakes) else snakes
  }

  /**
   * The end of a Playing tick (lines 258-307, 341-349): the winner is read off the settled
   * snakes, the snakes move, and the update lists them as they stand after the move, on the
   * tick that ends the game too.
   */
  function Conclude(st: Settled, tickCount: nat, snakeOrder: seq<string>, spentOrder: seq<string>): (r: TickResult)
    requires SnakesValid(st.snakes) && IsOrderOf(snakeOrder, st.snakes.Keys) && |snakeOrder| > 0
    requires forall i :: 0 <= i < |spentOrder| ==> spentOrder[i] in st.round.spent
    ensures |r.sent| == 1 && r.sent[0].GameState? && r.sent[0].justAteApple == []
    ensures r.sent[0].apples == st.apples && r.sent[0].recentPowerUps == st.round.used
    ensures |r.sent[0].snakes| == |snakeOrder|
    ensures forall i :: 0 <= i < |snakeOrder| ==>
      r.sent[0].snakes[i] == ToSent(AfterMove(st.snakes, tickCount)[snakeOrder[i]])
    ensures r.game.GameOver? || r.game.Playing?
    ensures r.game.GameOver? ==> r.game.amountsSpentList == SpentList(st.round.spent, spentOrder)
    ensures r.game.Playing? ==>
      && r.game.snakes == AfterMove(st.snakes, tickCount)
      && r.game.apples == st.apples && r.game.amountsSpent == st.round.spent
  {
    var winner := Winner(st.snakes, snakeOrder);
    var moved := AfterMove(st.snakes, tickCount);
    var update := ServerMessage.GameState(st.apples, SentList(moved, snakeOrder), [], st.round.used);
    match winner
    case Some(w) => TickResult(GameState.GameOver(w, SpentList(st.round.spent, spentOrder)), [update])
    case None => TickResult(GameState.Playing(moved, st.apples, st.round.spent), [update])
  }

  /** The Playing phase (lines 70-308, 341-349). */
  function PlayTick(snakes: map<string, Snake>, apples: seq<Point>, spent: map<string, real>,
                    msgs: seq<GameIncomingMessage>, newApples: seq<Point>, costs: PowerUpCosts, tickCount: nat,
                    snakeOrder: seq<string>, spentOrder: seq<string>): (r: TickResult)
    requires SnakesValid(snakes) && spent.Keys == snakes.Keys
    requires forall i :: 0 <= i < |msgs| ==> KnownIds(snakes.Keys, msgs[i])
    requires IsOrderOf(snakeOrder, snakes.Keys) && IsOrderOf(spentOrder, snakes.Keys) && |snakeOrder| > 0
    ensures
      var st := Settle(snakes, apples, spent, msgs, newApples, costs, snakeOrder);
      && |r.sent| == 1 && r.sent[0].GameState? && r.sent[0].justAteApple == []
      && r.sent[0].apples == st.apples && r.sent[0].recentPowerUps == st.round.used
      && |r.sent[0].snakes| == |snakeOrder|
      && (forall i :: 0 <= i < |snakeOrder| ==>
            r.sent[0].snakes[i] == ToSent(AfterMove(st.snakes, tickCount)[snakeOrder[i]]))
      && (r.game.GameOver? ==> r.game.amountsSpentList == SpentList(st.round.spent, spentOrder))
      && (r.game.Playing? ==> r.game.snakes == AfterMove(st.snakes, tickCount) && r.game.snakes.Keys == snakes.Keys)
  {
    Conclude(Settle(snakes, apples, spent, msgs, newApples, costs, snakeOrder), tickCount, snakeOrder, spentOrder)
  }

  /** A finished game (lines 309-319): it only repeats the result. */
  function OverTick(g: GameState): TickResult
    requires g.GameOver?
  {
    TickResult(g, [ServerMessage.GameOver(g.winner, AmountsSent(g.amountsSpentList))])
  }

  /** One tick of `game_runner`. */
  function TickSpec(g: GameState, allPlayers: seq<string>, costs: PowerUpCosts, tickCount: nat,
                    msgs: seq<GameIncomingMessage>, newApples: seq<Point>,
                    readyOrder: seq<string>, snakeOrder: seq<string>, spentOrder: seq<string>): TickResult
    requires ValidState(g, PlayerSet(allPlayers))
    requires InputsOk(g, PlayerSet(allPlayers), costs, msgs, newApples, readyOrder, snakeOrder, spentOrder)
  {
    match g
    case WaitingForPlayers(ready) =>
      ApplyReadyKeys(ready, msgs);
      LobbyTick(ready, msgs, readyOrder, allPlayers)
    case Playing(snakes, apples, spent) =>
      PlayTick(snakes, apples, spent, msgs, newApples, costs, tickCount, snakeOrder, spentOrder)
    case GameOver(_, _) => OverTick(g)
  }

  lemma PlayKeepsValid(snakes: map<string, Snake>, apples: seq<Point>, spent: map<string, real>,
                       msgs: seq<GameIncomingMessage>, newApples: seq<Point>, costs: PowerUpCosts, tickCount: nat,
                       snakeOrder: seq<string>, spentOrder: seq<string>, players: set<string>)
    requires SnakesValid(snakes) && spent.Keys == snakes.Keys && snakes.Keys == players
    requires forall i :: 0 <= i < |msgs| ==> KnownIds(snakes.Keys, msgs[i])
    requires IsOrderOf(snakeOrder, snakes.Keys) && IsOrderOf(spentOrder, snakes.Keys) && |snakeOrder| > 0
    requires forall p :: p in apples ==> OnBoard(p)
    requires forall p :: p in newApples ==> OnBoard(p)
    ensures ValidState(PlayTick(snakes, apples, spent, msgs, newApples, costs, tickCount, snakeOrder, spentOrder).game, players)
  {
    var st := Settle(snakes, apples, spent, msgs, newApples, costs, snakeOrder);
    var winner := Winner(st.snakes, snakeOrder);
    var moved := if tickCount % MoveEveryTicks == 0 then MoveAll(st.snakes) else st.snakes;
    var r := PlayTick(snakes, apples, spent, msgs, newApples, costs, tickCount, snakeOrder, spentOrder);
    if winner.Some? {
      assert r.game == GameState.GameOver(winner.value, SpentList(st.round.spent, spentOrder));
    } else {
      assert r.game == GameState.Playing(moved, st.apples, st.round.spent);
    }
  }

  /** A tick keeps the runner's invariant. */
  lemma TickKeepsValid(g: GameState, allPlayers: seq<string>, costs: PowerUpCosts, tickCount: nat,
                       msgs: seq<GameIncomingMessage>, newApples: seq<Point>,
                       readyOrder: seq<string>, snakeOrder: seq<string>, spentOrder: seq<string>)
    requires ValidState(g, PlayerSet(allPlayers))
    requires InputsOk(g, PlayerSet(allPlayers), costs, msgs, newApples, readyOrder, snakeOrder, spentOrder)
    ensures ValidState(TickSpec(g, allPlayers, costs, tickCount, msgs, newApples, readyOrder, snakeOrder, spentOrder).game,
                       PlayerSet(allPlayers))
  {
    match g
    case WaitingForPlayers(ready) =>
      ApplyReadyKeys(ready, msgs);
      InitialPlayingValid(allPlayers);
    case Playing(snakes, apples, spent) =>
      PlayKeepsValid(snakes, apples, spent, msgs, newApples, costs, tickCount, snakeOrder, spentOrder, PlayerSet(allPlayers));
    case GameOver(_, _) =>
  }

  /** A finished game stays finished and repeats its result to everyone on every tick. */
  lemma GameOverIsFinal(g: GameState, allPlayers: seq<string>, costs: PowerUpCosts, tickCount: nat,
                        msgs: seq<GameIncomingMessage>, newApples: seq<Point>,
                        readyOrder: seq<string>, snakeOrder: seq<string>, spentOrder: seq<string>)
    requires ValidState(g, PlayerSet(allPlayers)) && g.GameOver?
    requires InputsOk(g, PlayerSet(allPlayers), costs, msgs, newApples, readyOrder, snakeOrder, spentOrder)
    ensures
      var r := TickSpec(g, allPlayers, costs, tickCount, msgs, newApples, readyOrder, snakeOrder, spentOrder);
      && r.game == g
      && r.sent == [ServerMessage.GameOver(g.winner, AmountsSent(g.amountsSpentList))]
  {
  }

  /**
   * The lobby broadcasts the ready flags every tick and starts the game exactly when every
   * flag, after this tick's messages, is set; the game then starts from `InitialPlaying`.
   */
  lemma LobbyStartsWhenAllReady(g: GameState, allPlayers: seq<string>, costs: PowerUpCosts, tickCount: nat,
                                msgs: seq<GameIncomingMessage>, newApples: seq<Point>,
                                readyOrder: seq<string>, snakeOrder: seq<string>, spentOrder: seq<string>)
    requires ValidState(g, PlayerSet(allPlayers)) && g.WaitingForPlayers?
    requires InputsOk(g, PlayerSet(allPlayers), costs, msgs, newApples, readyOrder, snakeOrder, spentOrder)
    ensures
      var r := TickSpec(g, allPlayers, costs, tickCount, msgs, newApples, readyOrder, snakeOrder, spentOrder);
      var ready' := ApplyReady(g.readyStatus, msgs);
      && |r.sent| >= 1 && r.sent[0].ReadyStatus? && |r.sent[0].status| == |PlayerSet(allPlayers)|
      && (r.game.Playing? <==> AllReady(ready'))
      && (AllReady(ready') ==> r.game == InitialPlaying(allPlayers) && r.sent[1..] == [ServerMessage.StartGame])
      && (!AllReady(ready') ==> r.game == GameState.WaitingForPlayers(ready') && |r.sent| == 1)
  {
    ApplyReadyKeys(g.readyStatus, msgs);
    ListingCoversMap(g.readyStatus, readyOrder);
  }

  /** A tick of a game in play is `PlayTick` on its fields. */
  lemma PlayingTick(g: GameState, allPlayers: seq<string>, costs: PowerUpCosts, tickCount: nat,
                    msgs: seq<GameIncomingMessage>, newApples: seq<Point>,
                    readyOrder: seq<string>, snakeOrder: seq<string>, spentOrder: seq<string>)
    requires ValidState(g, PlayerSet(allPlayers)) && g.Playing?
    requires InputsOk(g, PlayerSet(allPlayers), costs, msgs, newApples, readyOrder, snakeOrder, spentOrder)
    ensures g.snakes.Keys == PlayerSet(allPlayers) && IsOrderOf(snakeOrder, g.snakes.Keys)
    ensures SnakesValid(g.snakes) && g.amountsSpent.Keys == g.snakes.Keys && |snakeOrder| > 0
    ensures IsOrderOf(spentOrder, g.snakes.Keys) && forall i :: 0 <= i < |msgs| ==> KnownIds(g.snakes.Keys, msgs[i])
    ensures TickSpec(g, allPlayers, costs, tickCount, msgs, newApples, readyOrder, snakeOrder, spentOrder)
      == PlayTick(g.snakes, g.apples, g.amountsSpent, msgs, newApples, costs, tickCount, snakeOrder, spentOrder)
  {
    ListingCoversMap(g.snakes, snakeOrder);
  }

  /**
   * Play stops exactly when at most one player is still in contention after the timers are
   * updated; a sole contender is the winner, and the final spending is the tick's spending
   * listed in map order.
   */
  lemma PlayEndsWithOneLeft(g: GameState, allPlayers: seq<string>, costs: PowerUpCosts, tickCount: nat,
                            msgs: seq<GameIncomingMessage>, newApples: seq<Point>,
                            readyOrder: seq<string>, snakeOrder: seq<string>, spentOrder: seq<string>)
    requires ValidState(g, PlayerSet(allPlayers)) && g.Playing?
    requires InputsOk(g, PlayerSet(allPlayers), costs, msgs, newApples, readyOrder, snakeOrder, spentOrder)
    ensures
      var r := TickSpec(g, allPlayers, costs, tickCount, msgs, newApples, readyOrder, snakeOrder, spentOrder);
      var st := Settle(g.snakes, g.apples, g.amountsSpent, msgs, newApples, costs, snakeOrder);
      var left := set id | id in st.snakes && InContention(st.snakes[id]);
      && (r.game.GameOver? <==> |left| <= 1)
      && (forall w :: left == {w} ==> r.game == GameState.GameOver(w, SpentList(st.round.spent, spentOrder)))
      && (left == {} ==> r.game == GameState.GameOver(snakeOrder[0], SpentList(st.round.spent, spentOrder)))
      && (r.game.GameOver? ==> r.game.amountsSpentList == SpentList(st.round.spent, spentOrder))
      && (r.game.Playing? ==> r.game.amountsSpent == st.round.spent && r.game.apples == st.apples)
  {
    var r := TickSpec(g, allPlayers, costs, tickCount, msgs, newApples, readyOrder, snakeOrder, spentOrder);
    PlayingTick(g, allPlayers, costs, tickCount, msgs, newApples, readyOrder, snakeOrder, spentOrder);
    var st := Settle(g.snakes, g.apples, g.amountsSpent, msgs, newApples, costs, snakeOrder);
    assert st.snakes.Keys == g.snakes.Keys;
    WinnerRule(st.snakes, snakeOrder);
    var moved := AfterMove(st.snakes, tickCount);
    var update := ServerMessage.GameState(st.apples, SentList(moved, snakeOrder), [], st.round.used);
    match Winner(st.snakes, snakeOrder)
    case Some(w) =>
      assert r.game == GameState.GameOver(w, SpentList(st.round.spent, spentOrder));
    case None =>
      assert r.game == GameState.Playing(moved, st.apples, st.round.spent);
  }

  /**
   * Every update of a game in play, the one of the ending tick included, shows each player's
   * snake exactly once, as it stands after the move.
   */
  lemma UpdateListsEverySnake(st: Settled, tickCount: nat, snakeOrder: seq<string>, spentOrder: seq<string>)
    requires SnakesValid(st.snakes) && IsOrderOf(snakeOrder, st.snakes.Keys) && |snakeOrder| > 0
    requires forall i :: 0 <= i < |spentOrder| ==> spentOrder[i] in st.round.spent
    ensures
      var sent := Conclude(st, tickCount, snakeOrder, spentOrder).sent[0].snakes;
      var moved := AfterMove(st.snakes, tickCount);
      && |sent| == |st.snakes.Keys|
      && (forall k :: k in st.snakes <==> exists i :: 0 <= i < |sent| && sent[i].userId == k)
      && (forall i, j :: 0 <= i < j < |sent| ==> sent[i].userId != sent[j].userId)
      && (forall i :: 0 <= i < |sent| ==> sent[i].userId in moved && sent[i] == ToSent(moved[sent[i].userId]))
  {
    var moved := AfterMove(st.snakes, tickCount);
    assert Conclude(st, tickCount, snakeOrder, spentOrder).sent[0].snakes == SentList(moved, snakeOrder);
    SentListCovers(moved, snakeOrder);
  }

  /** The task that runs one game (`game_runner`), one `Tick` per interval. */
  class Runner {
    var game: GameState
    var tickCount: nat
    const allPlayers: seq<string>
    const costs: PowerUpCosts

    ghost predicate Valid()
      reads this
    {
      ValidState(game, PlayerSet(allPlayers))
    }

    constructor (game0: GameState, players: seq<string>, costs0: PowerUpCosts)
      requires ValidState(game0, PlayerSet(players))
      ensures Valid()
      ensures game == game0 && tickCount == 0 && allPlayers == players && costs == costs0
    {
      game := game0;
      tickCount := 0;
      allPlayers := players;
      costs := costs0;
    }

    /** One pass of the loop of lines 34-364; `sent` is what is broadcast to every player. */
    method Tick(msgs: seq<GameIncomingMessage>, newApples: seq<Point>,
                readyOrder: seq<string>, snakeOrder: seq<string>, spentOrder: seq<string>)
      returns (sent: seq<ServerMessage>)
      requires Valid()
      requires InputsOk(game, PlayerSet(allPlayers), costs, msgs, newApples, readyOrder, snakeOrder, spentOrder)
      modifies this
      ensures Valid()
      ensures tickCount == old(tickCount) + 1
      ensures TickResult(game, sent) ==
        TickSpec(old(game), allPlayers, costs, old(tickCount), msgs, newApples, readyOrder, snakeOrder, spentOrder)
    {
      ghost var spec := TickSpec(game, allPlayers, costs, tickCount, msgs, newApples, readyOrder, snakeOrder, spentOrder);
      TickKeepsValid(game, allPlayers, costs, tickCount, msgs, newApples, readyOrder, snakeOrder, spentOrder);
      match game {
        case WaitingForPlayers(ready) =>
          var ready' := ReadyStep(ready, msgs);
          ApplyReadyKeys(ready, msgs);
          var status := ServerMessage.ReadyStatus(ReadyList(ready', readyOrder));
          if AllReady(ready') {
            game := InitialPlaying(allPlayers);
            sent := [status, ServerMessage.StartGame];
          } else {
            game := GameState.WaitingForPlayers(ready');
            sent := [status];
          }
        case Playing(snakes, apples, spent) =>
          var r1 := HandleMessages(Round(snakes, spent, []), msgs, costs);
          var s2 := ApplyDeaths(r1.snakes);
          var s3, kept := EatApplesStep(s2, apples + newApples, snakeOrder);
          var s4 := DecayTimers(s3);
          var winner := Winner(s4, snakeOrder);
          var s5 := s4;
          if tickCount % MoveEveryTicks == 0 {
            s5 := MoveSnakes(s4);
          }
          sent := [ServerMessage.GameState(kept, SentList(s5, snakeOrder), [], r1.used)];
          if winner.Some? {
            game := GameState.GameOver(winner.value, SpentList(r1.spent, spentOrder));
          } else {
            game := GameState.Playing(s5, kept, r1.spent);
          }
        case GameOver(w, list) =>
          sent := [ServerMessage.GameOver(w, AmountsSent(list))];
      }
      tickCount := tickCount + 1;
    }
  }
}
