/**
 * An abstract stand-in for the server's GameHandler, whose own class is not part of this model.
 * A handler is a value: its id, name, configuration, tournament flag, lifecycle state, the
 * clients attached to it with their roles, their points and the number of rounds it has played.
 * What the registry relies on is only that the handler keeps its id, that `AddClient` and
 * `RemoveClient` are the only calls that change its clients, and that they change exactly one.
 */
module GameHandlers {
  import opened Domain

  datatype Game = Game(
    id: int,
    name: string,
    config: Configuration,
    tournament: bool,
    state: GameState,
    clients: map<int, ClientType>,
    points: map<int, int>,
    rounds: nat)

  /** The lifecycle calls the registry forwards to a handler. */
  datatype Command = Launch | Pause | Continue | Abort(keepPoints: bool)

  /**
   * `new GameHandler(name, id, configuration, tournament, ...)`: an empty game in the lobby. The
   * handler's starting state is not part of this model; the lobby is this model's stand-in.
   */
  function NewGame(name: string, id: int, config: Configuration, tournament: bool): Game
  {
    Game(id, name, config, tournament, Lobby, map[], map[], 0)
  }

  /** The ids of every client attached to the game, whatever its role (`getAllClients`). */
  function AllClients(g: Game): set<int>
  {
    g.clients.Keys
  }

  function PlayerCount(g: Game): nat
  {
    |set c | c in g.clients && g.clients[c] == Player|
  }

  /** `addClient(clientType, client)` once the handler has accepted the client. */
  function AddClient(g: Game, clientType: ClientType, client: int): Game
  {
    g.(clients := g.clients[client := clientType])
  }

  /** `removeClient(client)`. */
  function RemoveClient(g: Game, client: int): Game
  {
    g.(clients := g.clients - {client})
  }

  /**
   * The handler's reaction to a lifecycle call and the answer it gives. Only `launchGame`
   * answers, and it answers false with fewer than two players, as the documentation of
   * `launchGame` in GameManager says. The handler's own class is not part of this model, so the
   * other rules are this model's stand-ins: launch also needs the lobby, pause and continue
   * switch between IN_PROGRESS and PAUSED, and abort ends any game not yet FINISHED.
   */
  function Apply(g: Game, command: Command): (Game, bool)
  {
    match command
    case Launch =>
      if g.state == Lobby && PlayerCount(g) >= 2 then (g.(state := InProgress), true) else (g, false)
    case Pause =>
      if g.state == InProgress then (g.(state := Paused), true) else (g, false)
    case Continue =>
      if g.state == Paused then (g.(state := InProgress), true) else (g, false)
    case Abort(keepPoints) =>
      if g.state == Finished then (g, false)
      else
        var points := if keepPoints then g.points else map c | c in g.points :: 0;
        (g.(state := Finished, points := points), true)
  }

  /** One call of the handler's `run`; `ends` says whether the handler ends the game on it. */
  function Tick(g: Game, ends: bool): Game
  {
    if g.state == InProgress then
      g.(rounds := g.rounds + 1, state := if ends then Finished else InProgress)
    else g
  }
}
