/** Values shared by the game registry and the request handlers of the battleships server. */
module Domain {

  datatype Option<T> = None | Some(value: T)

  /** The lifecycle state a game reports through `getGame().getState()`. */
  datatype GameState = Lobby | InProgress | Paused | Finished

  /**
   * The role a client connected with. The core only ever asks whether a role is PLAYER, so
   * `Spectator` stands for every role that is not.
   */
  datatype ClientType = Player | Spectator

  /** A connected client; the registry only ever uses its id. */
  datatype Client = Client(id: int)

  /** The game configuration handed to `createGame`; only the parts the field check can look at. */
  datatype Configuration = Configuration(maxPlayerCount: nat, height: nat, width: nat, shotCount: nat)

  /** The exceptions the core raises, one constructor per exception class. */
  datatype GameError =
    | NotAllowed(key: string)     // NotAllowedException with its translation key
    | InvalidAction(key: string)  // InvalidActionException with its translation key
    | InvalidGameSize             // InvalidGameSizeException raised by the field check
    | NullReference               // the NullPointerException of an unguarded map lookup

  /** A call that either returns normally or throws. */
  datatype Outcome = Pass | Fail(error: GameError)

  /** A call that either returns a value or throws. */
  datatype Result<T> = Success(value: T) | Failure(error: GameError)

  const ALREADY_INGAME := "game.gameManager.alreadyIngame"
  const NO_GAME := "game.gameManager.noGame"
  const NO_GAME_FOR_CLIENT := "game.gameManager.noGameForClient"
  const GAME_NOT_EXIST := "game.gameManager.gameNotExist"
  const NO_PLAYER := "game.handler.gameJoinPlayerRequest.noPlayer"
  const GAME_ALREADY_STARTED := "game.handler.gameJoinPlayerRequest.gameAlreadyStarted"
  const GAME_IS_FINISHED := "game.handler.gameJoinPlayerRequest.gameIsFinished"

  /** Messages the core sends to clients. */
  datatype Message =
    | PauseNotification
    | ContinueNotification
    | GameJoinPlayerResponse(gameId: int)

  /** One send through the client manager: a message and the ids of the clients it goes to. */
  datatype Delivery = Delivery(message: Message, recipients: set<int>)
}
