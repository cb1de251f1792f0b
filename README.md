# Snake donation game — a Dafny model

The system is a multiplayer snake game for raising donations. A Rust server runs one task per
game. On every tick the task drains the players' messages and advances a `GameState` through
three phases:

- a lobby (`WaitingForPlayers`) that waits until everyone is ready;
- `Playing`, on a 100 × 50 board that wraps at the edges, with apples to eat, collisions and
  paid power-ups (extra life, extra length, freezing or shrinking an opponent, revival);
- `GameOver`, which carries the winner and what everyone spent.

A management endpoint opens a lobby for a list of users. A browser client folds the server's
messages into four pieces of view state and turns key presses into commands. A separate Python
service keeps donation goals, their supporters and their games in memory.

The model has one module per source file:

| module | source |
|---|---|
| `Wrappers` | the `Option` type used throughout |
| `SnakeState` | `all_games_state/game_state.rs`: directions, snakes, run-length bodies, `GameState` |
| `PowerUpTypes`, `PowerUpCostLoader` | `power_ups.rs`, `power_up_cost_loader.rs` |
| `ClientMessages` | `client_message.rs` and `GameIncomingMessage` of `all_games_state.rs` |
| `ServerMessages` | `server_message.rs`: the wire form of a snake and the server messages |
| `OverlapDetector` | `overlap_detector.rs` |
| `GameRules` | the rules of one Playing tick of `game_runner.rs`: each rule as a function, the loop that runs it as a method proved equal to that function, and lemmas |
| `GameRunner` | the tick as a whole (`TickSpec`) and the runner task as a class `Runner` whose `Tick` method performs it |
| `CreateGameEndpoint` | `management_server/create_game.rs` and the registry of open games |
| `SnakeClient` | `frontend/src/snake/SnakeGame.tsx` with the wire types of `ServerMessage.ts` |
| `DonationApi` | `backend/app.py`: the `Goal`, `Person` and `Game` classes and the storage with its endpoints |

Costs and spending are exact `real`s. Board coordinates are `nat`s. The one place where the
source's `u32` arithmetic matters is the walk of `detect_overlap`, which is written out modulo
2^32 (`OverlapDetector.RawStep`); the other places are listed under "Left out".

Where the source depends on the iteration order of a `HashMap`, the order is a parameter: a
sequence listing each key once (`GameRules.IsOrderOf`). This covers:

- the ready listing;
- the order of snakes in an update;
- who eats an apple when two heads share it;
- the winner when nobody is left;
- the final spending list;
- the users of the lobby response.

Random input is a parameter too:

- the apples added on a tick (`newApples`, constrained by `GameRules.FreshApples`);
- the draw of `randOpponent` (`rnd` in [0, 1));
- the id of a new game.

The code is followed where it differs from a plain reading of the design:

- No phase is guarded. A finished game is re-broadcast on every tick, and the client still
  applies snapshots after the result and a lobby listing after the start.
- The client shows a freeze price of 3, while the server charges 5.
- The client updates its "dead" view only when its canvas is mounted (parameter
  `canvasMounted`).

## Model

| member | source | states |
|---|---|---|
| SnakeState.Opposite | multiplayer/src/games_server/all_games_state/game_state.rs:15-22 | the opposite direction differs from the direction and lies on the same axis |
| SnakeState.OppositeInvolutive | multiplayer/src/games_server/all_games_state/game_state.rs:15-22 | taking the opposite twice gives back the direction |
| PowerUpCostLoader.GetCost | multiplayer/src/games_server/power_up_cost_loader.rs:26-34 | every power-up has a price, and it is one of the five configured prices |
| PowerUpCostLoader.DefaultCosts | multiplayer/src/games_server/power_up_cost_loader.rs:13-23 | the default prices: extra life 5, add length 1, revive 10, shrink 3, freeze 5, for any opponent |
| PowerUpCostLoader.GetCostIgnoresOpponent | multiplayer/src/games_server/power_up_cost_loader.rs:30-31 | the opponent named by a shrink or freeze never changes its price |
| PowerUpCostLoader.DefaultCostsPositive | multiplayer/src/games_server/power_up_cost_loader.rs:14-22 | every default price is strictly positive |
| ServerMessages.ToSent | multiplayer/src/games_server/server_message.rs:13-34 | the wire form keeps the live/dead tag and the owner, a live snake's head and heading, and a dead snake's countdown (zero once expired) |
| ServerMessages.ToSentKernel | multiplayer/src/games_server/server_message.rs:16-31 | two snakes have the same wire form iff they agree on tag, owner, head, heading, body, extra life and whether each timer runs (live), or on owner and countdown as sent (dead) |
| ServerMessages.ExpiredCountdownLooksLikeZero | multiplayer/src/games_server/server_message.rs:27-30 | an expired revive countdown and a countdown at zero are sent alike |
| OverlapDetector.RunLength | multiplayer/src/games_server/overlap_detector.rs:9 | a block of length n covers n cells |
| OverlapDetector.RunAppend | multiplayer/src/games_server/overlap_detector.rs:9-20 | the cells of a block of length a + b are those of a followed by those of b from where a ends |
| OverlapDetector.RunAt | multiplayer/src/games_server/overlap_detector.rs:9-20 | cell j of a block's run is the position after j steps |
| OverlapDetector.CellsAppend | multiplayer/src/games_server/overlap_detector.rs:8-21 | walking two bodies one after the other is walking their concatenation |
| OverlapDetector.CellsLength | multiplayer/src/games_server/overlap_detector.rs:8-9 | the walk visits exactly the sum of the block lengths |
| OverlapDetector.ZeroBlockContributesNothing | multiplayer/src/games_server/overlap_detector.rs:9 | a zero-length block anywhere in a body adds no cell |
| OverlapDetector.RawStepDoesNotWrapAtBoard | multiplayer/src/games_server/overlap_detector.rs:20 | as written, a step off the left edge lands at 2^32 - 1 and a step past column 99 at column 100 |
| OverlapDetector.DetectOverlapWith | multiplayer/src/games_server/overlap_detector.rs:7-23 | for any stepping rule, the loop answers true iff the point is one of the cells walked from the head, block by block; an empty body gives false |
| OverlapDetector.DetectOverlap | multiplayer/src/games_server/overlap_detector.rs:3-24 | `detect_overlap` as written is true iff the point is among the cells of the non-wrapping `u32` walk |
| GameRules.MoveHead | multiplayer/src/games_server/game_runner.rs:279-285 | a moved head stays on the board |
| GameRules.WalkIsReversedMove | multiplayer/src/games_server/overlap_detector.rs:14-19 | a body-walk step is the move delta of the opposite heading, the negated move delta |
| GameRules.BoardStep | multiplayer/src/games_server/overlap_detector.rs:14-20 | the corrected body-walk step stays on the board |
| GameRules.BoardStepUndoesMove | multiplayer/src/games_server/overlap_detector.rs:14-20 | a corrected walk step leads from a moved head back to where it was |
| GameRules.DropLastCell | multiplayer/src/games_server/game_runner.rs:291-295 | shortening the tail block, and dropping it at zero, removes exactly the last cell of the body |
| GameRules.GrowFrontCells | multiplayer/src/games_server/game_runner.rs:285-290 | after the front grows, the body's cells are the new head followed by all the old cells |
| GameRules.MoveKeepsLength | multiplayer/src/games_server/game_runner.rs:287-295 | a move keeps a well-formed body well-formed and keeps its total length |
| GameRules.MoveFollowsHead | multiplayer/src/games_server/game_runner.rs:285-295 | after a move the cells are the new head, then every old cell but the last |
| GameRules.ReadyStep | multiplayer/src/games_server/game_runner.rs:53-57 | the lobby loop yields the ready table of `ApplyReady` |
| GameRules.ReadyLastWins | multiplayer/src/games_server/game_runner.rs:53-57 | a player is in the table iff it was there or sent `SetReady`; its last `SetReady` decides the flag; a player who sent none keeps the old one |
| GameRules.ReadyKeys | multiplayer/src/games_server/game_runner.rs:53-57 | a player is in the table after the batch iff it was there or sent `SetReady` |
| GameRules.ReadyLast | multiplayer/src/games_server/game_runner.rs:53-57 | a sender's last `SetReady` of the batch sets its flag |
| GameRules.ReadyKept | multiplayer/src/games_server/game_runner.rs:53-57 | a listed player who sent no `SetReady` keeps its flag |
| GameRules.ApplyReadyKeys | multiplayer/src/games_server/game_runner.rs:53-57 | when every sender is already listed, the table's keys do not change |
| GameRules.StartColumnOnBoard | multiplayer/src/games_server/game_runner.rs:328 | every start column lies on the board |
| GameRules.StartColumnsDistinct | multiplayer/src/games_server/game_runner.rs:328 | with at most 100 players, later places in the list start further right |
| GameRules.LastIndexOf | multiplayer/src/games_server/game_runner.rs:326-334 | a repeated player takes the place of its last occurrence, since a later insert overwrites the earlier one |
| GameRules.InitialPlayingValid | multiplayer/src/games_server/game_runner.rs:322-336 | play starts with one live snake per listed player under its own key, heading Up with body [(Up, 3)] at row 25 in its start column, no timers, no extra life, and 0 spent |
| GameRules.SteerRule | multiplayer/src/games_server/game_runner.rs:144-150 | a turn changes a snake iff it is alive and the new heading is neither the current one nor its opposite, and then only the heading changes |
| GameRules.TwoTurnsCanReverse | multiplayer/src/games_server/game_runner.rs:144-150 | two turns in one batch reverse a snake heading Up |
| GameRules.ShrinkBlocks | multiplayer/src/games_server/game_runner.rs:100-113 | the corrected shrinking loop yields `Shrunk(blocks, 10)` |
| GameRules.ShrinkBlocksAsWritten | multiplayer/src/games_server/game_runner.rs:100-113 | the shrinking loop as written yields `ShrunkAsWritten(blocks, 10)` |
| GameRules.ShrunkWellFormed | multiplayer/src/games_server/game_runner.rs:100-113 | the corrected shrink keeps the body well-formed and keeps the first block; it removes exactly amt cells when at least amt lie behind the first block; otherwise the body ends up max(3, its length minus amt) long |
| GameRules.AsWrittenLeavesEmptyTail | multiplayer/src/games_server/game_runner.rs:103-108 | as written, a tail block exactly as long as what remains is kept with length zero, and the body is no longer well-formed |
| GameRules.AsWrittenShrinkThenMoveUnderflows | multiplayer/src/games_server/game_runner.rs:287-292 | [(Up, 5), (Left, 10)] shrinks to [(Up, 5), (Left, 0)] and the next move decrements that zero; the corrected shrink gives [(Up, 5)] |
| GameRules.PowerUpEffect | multiplayer/src/games_server/game_runner.rs:76-135 | a power-up has an effect iff its condition holds (buyer alive, target alive, or buyer dead for a revive); with the corrected shrink, the effect keeps the keys and every snake valid |
| GameRules.UsePowerUp | multiplayer/src/games_server/game_runner.rs:76-135 | the power-up branch, with the corrected shrinking loop, yields `PowerUpEffect` |
| GameRules.StepMessage | multiplayer/src/games_server/game_runner.rs:73-152 | one message keeps the players and the validity of their snakes, and can add at most its sender to the spending table |
| GameRules.ChargedIffApplied | multiplayer/src/games_server/game_runner.rs:136-142 | a message charges its sender the power-up's price and logs one entry iff the power-up applied; otherwise spending and the log stay as they were |
| GameRules.ApplyMessages | multiplayer/src/games_server/game_runner.rs:72-153 | a batch keeps the players and the validity of their snakes, and can add only players to the spending table |
| GameRules.HandleMessage | multiplayer/src/games_server/game_runner.rs:73-152 | the loop body yields `StepMessage` |
| GameRules.HandleMessages | multiplayer/src/games_server/game_runner.rs:72-153 | the message loop yields `ApplyMessages` |
| GameRules.StepSpending | multiplayer/src/games_server/game_runner.rs:136-142 | one message keeps the older log entries, and raises a player's spending by exactly the price of the entries it adds for that player |
| GameRules.SpendingMatchesLog | multiplayer/src/games_server/game_runner.rs:136-142 | over a batch the log only grows, and each player's spending rises by exactly the summed price of the new entries naming them |
| GameRules.AfterDeaths | multiplayer/src/games_server/game_runner.rs:182-213 | the death step, on bodies walked with the board's wrap, keeps the players and keeps valid snakes valid |
| GameRules.HitsAnyOther | multiplayer/src/games_server/game_runner.rs:186-195 | the inner loop finds a hit iff the snake's head lies on the body of another live snake, walked with the board's wrap |
| GameRules.ApplyDeaths | multiplayer/src/games_server/game_runner.rs:182-213 | collecting the hits (with the wrapping walk) and then applying them yields `AfterDeaths` |
| GameRules.DeathRule | multiplayer/src/games_server/game_runner.rs:185-213 | only a vulnerable snake with its head on another body changes; with an extra life it loses the life and is protected for 30 ticks; without one it is dead at its head with 100 ticks to revive |
| GameRules.MutualHitKillsBoth | multiplayer/src/games_server/game_runner.rs:182-198 | two vulnerable snakes whose heads lie on each other's bodies are both hit |
| GameRules.LoneSnakeSurvives | multiplayer/src/games_server/game_runner.rs:186-195 | the only live snake is never hit |
| GameRules.Decayed | multiplayer/src/games_server/game_runner.rs:230-256 | the timer update keeps owner, head, tag, body and heading |
| GameRules.DecayAll | multiplayer/src/games_server/game_runner.rs:230-256 | the timer update keeps the players and the validity of their snakes |
| GameRules.DecayTimers | multiplayer/src/games_server/game_runner.rs:230-256 | the timer loop yields `DecayAll` |
| GameRules.DecaySnake | multiplayer/src/games_server/game_runner.rs:231-255 | one snake's timer update is `Decayed` of it |
| GameRules.CountsDown | multiplayer/src/games_server/game_runner.rs:232-254 | for m <= k, m ticks take a timer from k to k - m |
| GameRules.DecayTimesLast | multiplayer/src/games_server/game_runner.rs:232-254 | n + 1 ticks are n ticks followed by one more |
| GameRules.TimerRunsOut | multiplayer/src/games_server/game_runner.rs:232-254 | a timer set to k reads zero after k ticks, runs throughout them, and is gone after k + 1 |
| GameRules.Contenders | multiplayer/src/games_server/game_runner.rs:258-264 | the contenders are exactly the listed players that are alive or dead with a countdown running |
| GameRules.Winner | multiplayer/src/games_server/game_runner.rs:258-269 | a winner, when there is one, is a listed player |
| GameRules.WinnerRule | multiplayer/src/games_server/game_runner.rs:258-269 | play stops iff at most one player contends; a sole contender wins; with no contender and at least one player, the first player listed wins |
| GameRules.MoveSnake | multiplayer/src/games_server/game_runner.rs:273-297 | a move keeps owner and tag, keeps the head on the board, and keeps the body well-formed and of the same length |
| GameRules.MoveSnakeRule | multiplayer/src/games_server/game_runner.rs:273-297 | a live snake that is not frozen moves its head one wrapped cell in its heading, and its cells become the new head then all old cells but the last; a dead or frozen snake stays |
| GameRules.MoveAll | multiplayer/src/games_server/game_runner.rs:273-297 | moving keeps the players and the validity of their snakes |
| GameRules.Advance | multiplayer/src/games_server/game_runner.rs:279-295 | the loop body for a snake that moves yields `MoveSnake` |
| GameRules.MoveSnakes | multiplayer/src/games_server/game_runner.rs:272-298 | the movement loop yields `MoveAll` |
| GameRules.Eater | multiplayer/src/games_server/game_runner.rs:216-227 | the eater is the first live snake in the given order with its head on the apple; there is none iff no listed live head is there |
| GameRules.Grown | multiplayer/src/games_server/game_runner.rs:220-221 | growing keeps owner, head and tag |
| GameRules.GrownAdds | multiplayer/src/games_server/game_runner.rs:221 | growing by j and then by k is growing by j + k; growing by 0 changes nothing |
| GameRules.EaterSameHeads | multiplayer/src/games_server/game_runner.rs:216-227 | who eats depends only on which snakes are alive and where their heads are |
| GameRules.EatOne | multiplayer/src/games_server/game_runner.rs:216-227 | an apple is eaten iff it has an eater; only the eater grows, by 2; heads and tags stay |
| GameRules.EatApples | multiplayer/src/games_server/game_runner.rs:216-227 | eating keeps heads, tags and validity, and keeps only apples that were there |
| GameRules.EaterNoneIffNoHead | multiplayer/src/games_server/game_runner.rs:216-227 | an apple has no eater iff no live head lies on it |
| GameRules.EatApplesKeeps | multiplayer/src/games_server/game_runner.rs:216-227 | the apples kept are exactly those no live head lay on, in their order |
| GameRules.EatApplesGrows | multiplayer/src/games_server/game_runner.rs:216-227 | each snake's tail grows by 2 for every apple it eats, and nothing else about it changes |
| GameRules.EatApplesStep | multiplayer/src/games_server/game_runner.rs:216-227 | the `retain` pass yields `EatApples` |
| GameRules.AsWrittenWalkMissesWrappedBody | multiplayer/src/games_server/overlap_detector.rs:14-20 | after wrapping from (0, 10) to (99, 10), the body walked as written is (99, 10), (100, 10), (101, 10), while on the board it covers (0, 10) and (1, 10) |
| GameRules.ReadyListCovers | multiplayer/src/games_server/game_runner.rs:59-64 | the ready listing names every player of the table exactly once, each with its own flag |
| GameRules.SentListCovers | multiplayer/src/games_server/game_runner.rs:302 | the update shows every player's snake exactly once, in its wire form |
| GameRules.SpentListCovers | multiplayer/src/games_server/game_runner.rs:345 | the final spending names every player exactly once, with what it spent |
| GameRules.AmountsRoundTrip | multiplayer/src/games_server/game_runner.rs:313-316 | reading the amounts back off a `GameOver` message gives exactly the recorded pairs, in order |
| GameRules.ListingCoversMap | multiplayer/src/games_server/game_runner.rs:59-64 | an iteration order is as long as the map and names each key once |
| GameRunner.Settle | multiplayer/src/games_server/game_runner.rs:72-269 | messages, apples, deaths, eating and timers keep the players and valid snakes, keep the spending table's keys, and leave only apples that were there or new |
| GameRunner.AfterMove | multiplayer/src/games_server/game_runner.rs:271-298 | the movement step keeps the players and valid snakes |
| GameRunner.Conclude | multiplayer/src/games_server/game_runner.rs:258-349 | on every Playing tick, the one that ends the game included, one `GameState` update is sent: the snakes in map order as they stand after the move, the apples left after eating, no eaters and this tick's power-ups; a game that ends records this tick's spending in map order, one that goes on keeps the moved snakes, the apples and the spending |
| GameRunner.PlayTick | multiplayer/src/games_server/game_runner.rs:70-349 | the same update and results for a whole Playing tick, in terms of the settled state; a game still in play keeps its players |
| GameRunner.PlayKeepsValid | multiplayer/src/games_server/game_runner.rs:70-349 | a Playing tick leaves a state the runner can run: valid snakes for the same players, apples on the board, or a result |
| GameRunner.TickKeepsValid | multiplayer/src/games_server/game_runner.rs:51-349 | every tick keeps the runner's invariant |
| GameRunner.GameOverIsFinal | multiplayer/src/games_server/game_runner.rs:309-319 | a finished game stays as it is and sends its winner and spending on every tick |
| GameRunner.LobbyStartsWhenAllReady | multiplayer/src/games_server/game_runner.rs:52-68 | the lobby sends the ready listing every tick and starts, with `StartGame` and the initial Playing state, iff every flag is set after this tick's messages |
| GameRunner.PlayingTick | multiplayer/src/games_server/game_runner.rs:70 | a tick of a game in play is the Playing branch, and the game's fields meet its preconditions |
| GameRunner.PlayEndsWithOneLeft | multiplayer/src/games_server/game_runner.rs:258-349 | play stops iff at most one player contends after the timers; a sole contender wins; with no contender the first player in map order wins; a finished game carries this tick's spending in map order |
| GameRunner.UpdateListsEverySnake | multiplayer/src/games_server/game_runner.rs:300-307 | the update of every Playing tick, the ending one included, shows each player's snake exactly once, as it stands after the move |
| GameRunner.Runner.constructor | multiplayer/src/games_server/game_runner.rs:22-32 | a runner starts on its game with tick count 0 |
| GameRunner.Runner.Tick | multiplayer/src/games_server/game_runner.rs:44-363 | the new game and the sent messages are the tick of `TickSpec`; the tick count goes up by one; the invariant is kept |
| CreateGameEndpoint.AuthMap | multiplayer/src/management_server/create_game.rs:45 | every listed user has an access token, and the token is the user's own id |
| CreateGameEndpoint.AuthList | multiplayer/src/management_server/create_game.rs:47-50 | the user list has one entry per access token, in the map's order |
| CreateGameEndpoint.InitialReady | multiplayer/src/management_server/create_game.rs:55-57 | the lobby table holds every listed user, none of them ready |
| CreateGameEndpoint.AuthMapSize | multiplayer/src/management_server/create_game.rs:45 | repeated ids collapse, so there are at most as many tokens as ids, and exactly as many when the ids are distinct |
| CreateGameEndpoint.AuthListIsIdentity | multiplayer/src/management_server/create_game.rs:47-50 | each response entry's token equals its user, and each requested user appears exactly once |
| CreateGameEndpoint.InitialLobbyValid | multiplayer/src/management_server/create_game.rs:55-57 | the new lobby satisfies the runner's invariant, and does not start before someone is ready |
| CreateGameEndpoint.AuthGameState.constructor | multiplayer/src/management_server/create_game.rs:60-65 | a registry entry holds the access tokens and the game |
| CreateGameEndpoint.AllGamesState.constructor | multiplayer/src/games_server/all_games_state.rs:32-34 | the registry starts empty |
| CreateGameEndpoint.AllGamesState.CreateGame | multiplayer/src/management_server/create_game.rs:36-81 | a wrong token gives Unauthorized and registers nothing; otherwise exactly one new entry is stored under the id, holding a fresh runner on the new lobby with the default prices, and the response lists the tokens |
| SnakeClient.LastOwnEntry | frontend/src/snake/SnakeGame.tsx:89-95 | the last snapshot entry of the local user, and none iff there is no entry for that user |
| SnakeClient.DeadFollowsLastEntry | frontend/src/snake/SnakeGame.tsx:89-95 | after a snapshot, `dead` is set from the local user's last entry: its countdown out of 100 if dead, false if alive; without an entry it is unchanged |
| SnakeClient.LogIsAppendOnly | frontend/src/snake/SnakeGame.tsx:124-126 | after any stream of messages the power-up log is the old log followed by every reported power-up, in order |
| SnakeClient.ReadyStatusAfterStartReopensLobby | frontend/src/snake/SnakeGame.tsx:127-130 | `StartGame` sets `'started'`, and a later listing replaces it |
| SnakeClient.GameStateAfterGameOverApplies | frontend/src/snake/SnakeGame.tsx:131-133 | after a result, a snapshot is still applied to the log and `dead`, and the result stays |
| SnakeClient.Session.constructor | frontend/src/snake/SnakeGame.tsx:48-60 | a page starts with an empty listing, an empty log, not dead, and no result |
| SnakeClient.Session.Handle | frontend/src/snake/SnakeGame.tsx:74-134 | the listener moves the page's view by one `Step` of the reducer |
| SnakeClient.ClientPricesMatchServerExceptFreeze | frontend/src/snake/SnakeGame.tsx:29-41 | the shown price equals the server's default iff the power-up is not a freeze; a freeze is shown cheaper |
| SnakeClient.KeyCommandInvertsArrowKey | frontend/src/snake/SnakeGame.tsx:136-160 | each arrow key sends exactly the turn to its heading, and only arrow keys send anything |
| SnakeClient.FindStatus | frontend/src/snake/SnakeGame.tsx:415 | the first listing entry of the local user, and none iff there is no entry for that user |
| SnakeClient.ReadyToggle | frontend/src/snake/SnakeGame.tsx:414-416 | the button sends `SetReady` with the negation of the local flag, or true when the user is not listed |
| SnakeClient.AllButMe | frontend/src/snake/SnakeGame.tsx:176 | exactly the other users are kept |
| SnakeClient.RandOpponent | frontend/src/snake/SnakeGame.tsx:175-178 | the pick is another listed user, and there is none iff every listed user is the local one |
| DonationApi.FirstIndex | backend/app.py:23-24 | the position of the first occurrence |
| DonationApi.RemoveFirstTakesOne | backend/app.py:23-24 | removal takes one occurrence out and keeps the order of the rest |
| DonationApi.LeaveUndoesJoin | backend/app.py:50-54 | a leave undoes a join when the person was not yet listed; otherwise the person stays listed |
| DonationApi.NextStreak | backend/app.py:62-65 | a positive streak goes up by one; any other streak becomes 1 |
| DonationApi.StreakCountsWins | backend/app.py:60-65 | k wins from a new person's 0 give a streak of k, and from any start at least k |
| DonationApi.Goal.constructor | backend/app.py:12-18 | a new goal has its fields, no donations and no supporters |
| DonationApi.Goal.AddPerson | backend/app.py:20-21 | the person is appended |
| DonationApi.Goal.RemovePerson | backend/app.py:23-24 | it fails iff the person is absent; otherwise it removes the first occurrence |
| DonationApi.Person.constructor | backend/app.py:26-31 | a new person has streak 0 and no donations |
| DonationApi.Person.Donate | backend/app.py:33-35 | the amount is added to the person and to their goal, and nothing else changes |
| DonationApi.Person.JoinGame | backend/app.py:37-38 | the person is appended to the game's players |
| DonationApi.Person.LeaveGame | backend/app.py:40-41 | it fails iff the person is not playing; otherwise it removes the first occurrence |
| DonationApi.Game.constructor | backend/app.py:43-48 | a new game has no players and no winner |
| DonationApi.Game.JoinGame | backend/app.py:50-51 | the person is appended, with no duplicate check |
| DonationApi.Game.LeaveGame | backend/app.py:53-54 | it fails iff the person is absent; otherwise it removes the first occurrence |
| DonationApi.Game.EndGame | backend/app.py:60-65 | the winner is recorded, and the winner's streak advances by `NextStreak` |
| DonationApi.BooksAddOther | backend/app.py:119-121 | registering a supporter of another goal keeps a goal's books |
| DonationApi.BooksUnchanged | backend/app.py:119-121 | books nothing has touched still balance |
| DonationApi.Enrolled | backend/app.py:119-121 | a goal that gains a registered supporter with no donations still balances |
| DonationApi.Credited | backend/app.py:33-35 | a goal's books still balance when the donor gains an amount, the donor's goal gains the same amount, and nobody else's donations move |
| DonationApi.StatusCode | backend/app.py:94-166 | 400 iff the name already exists, 404 iff something is missing, 201 iff something was created, 200 iff an action was done or a goal found |
| DonationApi.Store.constructor | backend/app.py:86-88 | the storage starts empty and consistent |
| DonationApi.Store.CreateGoal | backend/app.py:94-100 | a duplicate name gives 400 and changes nothing; otherwise a new goal is stored with no donations and no supporters |
| DonationApi.Store.GetGoal | backend/app.py:106-110 | the goal when it exists, 404 otherwise |
| DonationApi.Store.CreatePerson | backend/app.py:112-122 | a duplicate gives 400 before a missing goal gives 404, both changing nothing; otherwise the person is registered and appended to the goal's supporters |
| DonationApi.Store.RegisterPerson | backend/app.py:119-121 | a new person under the name points at the goal, is appended to its supporters, and keeps its totals |
| DonationApi.Store.CreateGame | backend/app.py:128-137 | a duplicate gives 400 before a missing goal gives 404; otherwise a new game with no players and no winner is stored |
| DonationApi.Store.JoinGame | backend/app.py:139-147 | 404 for an unknown game or person, changing nothing; otherwise the person is appended to the players |
| DonationApi.Store.MakeDonation | backend/app.py:149-156 | 404 for an unknown person, changing nothing; otherwise the person and their goal gain the amount, and every goal's books still balance |
| DonationApi.Store.EndGame | backend/app.py:158-166 | 404 for an unknown game before an unknown winner, changing nothing; otherwise the winner is recorded and the streak advances |

## Left out

- The tokio interval, the channels, the `Arc<Mutex>` lock and the fan-out of messages to every player (game_runner.rs lines 30-44 and 351-361) are concurrency and I/O; the model runs one tick on a given batch and returns the messages to send.
- The random apple placement of game_runner.rs lines 156-179 is not modelled; its result is the `newApples` parameter. `GameRules.FreshApples` says what it can produce: the right number of apples, on the board, off every live body as `detect_overlap` walks it. How many draws that takes is not modelled: the outer loop repeats its five-try inner loop until 40 apples exist, so a board with no free cell would never finish the tick.
- `Math.random` in `randOpponent` and `Uuid::new_v4` in `create_game` are parameters.
- `HashMap` iteration orders are parameters (sequences listing each key once), not a fixed hashing.
- The `unwrap()` calls on unknown player or opponent ids (game_runner.rs lines 78, 86, 93, 99, 120, 145, 200) become a precondition: every id a message names is a player (`GameRules.KnownIds`). The call at line 268 becomes the precondition that a game in play has a player.
- The `u32` width of board coordinates, lengths and timers is not modelled outside the overlap walk. Body lengths grow by 10 or 2 at a time and timers start at 100 at most, far below 2^32. The `as i32` casts at line 112 are exact for such lengths.
- `f64` rounding is not modelled; costs and spending are exact reals.
- `GameRules.PowerUpEffect`: the shrink branch uses the corrected `Shrunk` (see "## Findings"), not the `<` of game_runner.rs line 103, so a target whose tail block is exactly as long as what remains keeps a well-formed body instead of a zero-length tail block; `GameRules.ShrunkAsWritten`, `GameRules.ShrinkBlocksAsWritten` and `GameRules.AsWrittenShrinkThenMoveUnderflows` model the as-written loop and the underflow at line 292 that follows.
- `GameRules.UsePowerUp`: runs the corrected shrinking loop `ShrinkBlocks`, for the reason given for `PowerUpEffect`.
- `GameRules.HitsAnyOther`: walks the other bodies with the board-wrapping `BoardStep` (see "## Findings"), while line 190 calls `detect_overlap`, whose walk at overlap_detector.rs line 20 does not wrap; a head on the wrapped part of a body is a hit in the model and a miss in the source. `OverlapDetector.DetectOverlap` and `GameRules.AsWrittenWalkMissesWrappedBody` model the as-written walk.
- `GameRules.AfterDeaths`: judges collisions with the wrapping walk, for the reason given for `HitsAnyOther`.
- `GameRules.ApplyDeaths`: collects hits with the wrapping walk, for the reason given for `HitsAnyOther`.
- `GameRunner.Settle`: composes the corrected power-up effect and death step, so it keeps snakes valid where the source's tick leaves a zero-length tail block, and kills a snake whose head is on a wrapped body where the source does not.
- `GameRunner.PlayTick`: a Playing tick with both corrections, through `Settle`.
- `GameRunner.PlayKeepsValid`: the snake invariant it proves holds of the corrected tick; the source's tick can break it with a zero-length tail block (`GameRules.AsWrittenLeavesEmptyTail`).
- `GameRunner.TickKeepsValid`: the same invariant, also of the corrected tick only.
- `GameRunner.Runner.Tick`: `TickSpec`, which it follows, is the corrected tick: on a wrapped body and on the shrink edge case it differs from game_runner.rs lines 44-363, as stated for `Settle`.
- `GameRunner.Runner.Tick`: it does not model a tick that panics, that is, messages naming unknown ids, because the source aborts the game task there.
- Frames of the client's canvas drawing and the page's JSX (SnakeGame.tsx lines 80-122 and 182-484) are display only; `canvasMounted` stands for the `if (g)` test that guards the `dead` update.
- The socket creation and the `Authenticate` message sent on open (SnakeGame.tsx lines 62-72) are network I/O.
- `ServerMessage.ts` only declares the wire types; they are the datatypes of `ServerMessages` and `SnakeClient`.
- WebSocket authentication and forwarding (`client_connection.rs`), the server bootstrap (`run_server.rs`, `main.rs`) and the management message type are network I/O.
- `DonationApi.Store.GetGoal`: returns `Found(goal)` for an existing goal. The source returns the `Goal` dataclass itself, and FastAPI's encoder turns a dataclass into a dict recursively; a goal with a supporter refers to a person who refers back to the goal, so that encoding does not terminate, and such a request most likely fails with a server error instead of 200. Response encoding is not modelled.
- `list_goals`, `list_people` and `read_root` in app.py only serialize the stores; `Game.start_game` does nothing in the source.
- FastAPI routing, pydantic validation, uvicorn and the JSON bodies of the responses are not modelled; an `HTTPException` becomes an `Outcome` with its status code.
- Python dataclass equality: `list.remove` compares dataclasses by field values; the model compares people by identity (the storage never holds two people with the same name at once, but two structurally equal people in one list would be told apart).
- Python integers are unbounded, as in the model; amounts are not validated in the source and are not validated here.
- The other frontend files (the landing and profile pages, Firebase authentication and storage, 3D and canvas animation) are outside the game.

## Findings

| source | as written | input that shows it | evidently intended | confidence | as-written member | corrected member |
|---|---|---|---|---|---|---|
| multiplayer/src/games_server/game_runner.rs:103 | a tail block is dropped only when strictly shorter than what remains to shrink; one exactly as long is cut to length 0 and kept, and the next move's `-= 1` at line 292 takes that `u32` zero below zero (a panic in debug builds, a wrap to 2^32 - 1 in release builds) | a snake with body [(Up, 5), (Left, 10)] that is shrunk and then moves | drop the tail block when it is no longer than what remains (`<=`), so the body stays well-formed | not executed | GameRules.AsWrittenShrinkThenMoveUnderflows | GameRules.ShrunkWellFormed |
| multiplayer/src/games_server/overlap_detector.rs:20 | the body walk steps in `u32` arithmetic and never wraps at the board edge, while movement wraps; a body that crosses an edge after a wrap is partly off the board for collisions and apple placement | a snake at (0, 10) heading Left with body [(Left, 3)] moves to (99, 10); on the board it covers (99, 10), (0, 10), (1, 10), but the walk checks (99, 10), (100, 10), (101, 10), so a head at (0, 10) does not collide | walk the body modulo the board size, like movement | not executed | GameRules.AsWrittenWalkMissesWrappedBody | GameRules.BoardStepUndoesMove |

The model uses the corrected forms: `Shrunk` in the power-up effect, and the wrapping walk
`BoardStep` in the collision test (`GameRules.HitsOther`) and in the movement lemmas. The apple
placement constraint `FreshApples` keeps the as-written walk, because it describes which random
apples the source accepts.
