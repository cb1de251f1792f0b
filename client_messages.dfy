/**
 * What a client sends to the game server (multiplayer/src/games_server/client_message.rs,
 * mirrored by the `ClientMessage` type of frontend/src/snake/ServerMessage.ts), and a message
 * as the game runner receives it, tagged with the sender (all_games_state.rs).
 */
module ClientMessages {
  import opened SnakeState
  import opened PowerUpTypes

  datatype ClientMessage =
    | Authenticate(accessToken: string, gameId: string)
    | UsePowerUp(powerUp: PowerUp)
    | SetDirection(direction: Direction)
    | SetReady(ready: bool)

  datatype GameIncomingMessage = GameIncomingMessage(playerId: string, message: ClientMessage)
}
