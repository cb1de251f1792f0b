/**
 * The management endpoint that opens a lobby (multiplayer/src/management_server/create_game.rs):
 * it checks the API token, gives every listed user an access token, registers the game under
 * a fresh id and starts its runner on a `WaitingForPlayers` table with nobody ready.
 *
 * The fresh id (a random UUID in the source, so one not yet registered) and the iteration
 * order of the access-token map are parameters.
 */
module CreateGameEndpoint {
  import opened SnakeState
  import opened PowerUpCostLoader
  import opened GameRules
  import opened GameRunner

  /** The one token the endpoint accepts (line 41). */
  const ApiToken: string := "secret_token"

  datatype StatusCode = Ok | Unauthorized

  datatype UserAccessToken = UserAccessToken(accessToken: string, userId: string)

  datatype CreateGameResponse = Success(gameId: string, users: seq<UserAccessToken>) | Error

  /** Access tokens to user ids (line 45): every user's token is their own id, so repeated ids collapse. */
  function AuthMap(userIds: seq<string>): (m: map<string, string>)
    ensures m.Keys == PlayerSet(userIds)
    ensures forall token :: token in m ==> m[token] == token
  {
    map u | u in userIds :: u
  }

  /** The response's user list (lines 47-50), one entry per access token in the map's order. */
  function AuthList(auths: map<string, string>, order: seq<string>): (r: seq<UserAccessToken>)
    requires IsOrderOf(order, auths.Keys)
    ensures |r| == |order| == |auths.Keys|
    ensures forall i :: 0 <= i < |r| ==> r[i] == UserAccessToken(order[i], auths[order[i]])
  {
    ListingCoversMap(auths, order);
    seq(|order|, i requires 0 <= i < |order| => UserAccessToken(order[i], auths[order[i]]))
  }

  /** The lobby table (lines 55-57): every listed user, nobody ready. */
  function InitialReady(userIds: seq<string>): (ready: map<string, bool>)
    ensures ready.Keys == PlayerSet(userIds)
    ensures forall u :: u in ready ==> !ready[u]
  {
    map u | u in userIds :: false
  }

  /** Repeated user ids collapse to one access token; distinct ones give one each. */
  lemma AuthMapSize(userIds: seq<string>)
    ensures |AuthMap(userIds).Keys| <= |userIds|
    ensures Distinct(userIds) ==> |AuthMap(userIds).Keys| == |userIds|
  {
    SetOfSeqSize(userIds);
    if Distinct(userIds) {
      DistinctCard(userIds);
    }
  }

  lemma {:induction false} SetOfSeqSize(s: seq<string>)
    ensures |PlayerSet(s)| <= |s|
    decreases |s|
  {
    if s != [] {
      SetOfSeqSize(s[1..]);
      assert PlayerSet(s) == {s[0]} + PlayerSet(s[1..]);
    }
  }

  /**
   * For the users of the response, a token is always the user's own id, and each user of the
   * request appears exactly once.
   */
  lemma AuthListIsIdentity(userIds: seq<string>, order: seq<string>)
    requires IsOrderOf(order, AuthMap(userIds).Keys)
    ensures forall i :: 0 <= i < |AuthList(AuthMap(userIds), order)| ==>
      AuthList(AuthMap(userIds), order)[i].accessToken == AuthList(AuthMap(userIds), order)[i].userId
    ensures forall u :: u in userIds <==> exists i :: 0 <= i < |order| && AuthList(AuthMap(userIds), order)[i].userId == u
    ensures forall i, j :: 0 <= i < j < |order| ==>
      AuthList(AuthMap(userIds), order)[i].userId != AuthList(AuthMap(userIds), order)[j].userId
  {
    var r := AuthList(AuthMap(userIds), order);
    forall u | u in userIds
      ensures exists i :: 0 <= i < |order| && r[i].userId == u
    {
      assert u in AuthMap(userIds) && u in order;
      var i :| 0 <= i < |order| && order[i] == u;
      assert r[i].userId == u;
    }
  }

  /** A fresh lobby is one the runner can run, and it does not start before somebody gets ready. */
  lemma InitialLobbyValid(userIds: seq<string>)
    ensures ValidState(GameState.WaitingForPlayers(InitialReady(userIds)), PlayerSet(userIds))
    ensures userIds != [] ==> !AllReady(InitialReady(userIds))
  {
    if userIds != [] {
      assert userIds[0] in InitialReady(userIds);
    }
  }

  /** What `games` holds for one game (`AuthGameState`): its access tokens and its shared game. */
  class AuthGameState {
    const players: map<string, string>
    const game: Runner

    constructor (players0: map<string, string>, game0: Runner)
      ensures players == players0 && game == game0
    {
      players := players0;
      game := game0;
    }
  }

  /** The registry of open games (`AllGamesState`). */
  class AllGamesState {
    var games: map<string, AuthGameState>

    constructor ()
      ensures games == map[]
    {
      games := map[];
    }

    /**
     * `create_game`: with the wrong token nothing is registered; otherwise exactly one entry is
     * stored under `gameId`, holding a new runner over `userIds` with the default costs.
     */
    method CreateGame(apiToken: string, userIds: seq<string>, gameId: string, authOrder: seq<string>)
      returns (code: StatusCode, response: CreateGameResponse)
      requires IsOrderOf(authOrder, AuthMap(userIds).Keys)
      requires gameId !in games
      modifies this
      ensures apiToken != ApiToken ==> code == Unauthorized && response == Error && games == old(games)
      ensures apiToken == ApiToken ==>
        && code == Ok
        && response == Success(gameId, AuthList(AuthMap(userIds), authOrder))
        && games.Keys == old(games).Keys + {gameId}
        && (forall id :: id in old(games) && id != gameId ==> games[id] == old(games)[id])
        && fresh(games[gameId]) && fresh(games[gameId].game)
        && games[gameId].players == AuthMap(userIds)
        && games[gameId].game.game == GameState.WaitingForPlayers(InitialReady(userIds))
        && games[gameId].game.allPlayers == userIds
        && games[gameId].game.costs == Default()
        && games[gameId].game.tickCount == 0
        && games[gameId].game.Valid()
    {
      if apiToken != ApiToken {
        return Unauthorized, Error;
      }
      var auths := AuthMap(userIds);
      var authList := AuthList(auths, authOrder);
      InitialLobbyValid(userIds);
      var runner := new Runner(GameState.WaitingForPlayers(InitialReady(userIds)), userIds, Default());
      var entry := new AuthGameState(auths, runner);
      games := games[gameId := entry];
      return Ok, Success(gameId, authList);
    }
  }
}
