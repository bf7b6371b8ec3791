/**
 * The state of the game registry as a value, and the effect of each of its operations on it.
 * The GameManager class proves each of its methods against one of these functions; the lemmas
 * below state what the operations promise, over every input.
 */
module GameRegistry {
  import opened Domain
  import opened GameHandlers

  /**
   * `games` is `gameHandlersById`, `clientToGame` the membership index, `nextId` the next id
   * the id manager hands out.
   */
  datatype Registry = Registry(games: map<int, Game>, clientToGame: map<int, int>, nextId: int)

  /**
   * The registry invariant: every game is stored under its own id, which the id manager has
   * already handed out; every membership points at a registered game that lists the client.
   */
  ghost predicate Inv(r: Registry)
  {
    (forall id | id in r.games :: id < r.nextId && r.games[id].id == id) &&
    (forall c | c in r.clientToGame ::
      r.clientToGame[c] in r.games && c in r.games[r.clientToGame[c]].clients)
  }

  /** `createGame`: the field check runs before an id is drawn. */
  function CreateGame(r: Registry, checkField: Configuration -> bool, config: Configuration,
                      name: string, tournament: bool): (res: (Registry, Result<Game>))
    requires Inv(r)
    ensures Inv(res.0)
    ensures res.1.Failure? <==> !checkField(config)
    ensures res.1.Failure? ==> res.1.error == InvalidGameSize && res.0 == r
    ensures res.1.Success? ==>
      var g := res.1.value;
      g.id !in r.games && res.0.games == r.games[g.id := g] && r.nextId < res.0.nextId &&
      res.0.clientToGame == r.clientToGame &&
      g.state == Lobby && g.clients == map[] &&
      g.name == name && g.config == config && g.tournament == tournament
  {
    if !checkField(config) then (r, Failure(InvalidGameSize))
    else
      var id := r.nextId;
      var g := NewGame(name, id, config, tournament);
      (Registry(r.games[id := g], r.clientToGame, id + 1), Success(g))
  }

  /**
   * `addClientToGame(gameId, client, clientType)`; `verdict` is what the target handler's own
   * `addClient` does: return normally, or throw.
   */
  function Join(r: Registry, gameId: int, client: int, clientType: ClientType, verdict: Outcome)
    : (res: (Registry, Outcome))
    requires Inv(r)
    ensures Inv(res.0)
    ensures res.0.nextId == r.nextId && res.0.games.Keys == r.games.Keys
    ensures forall id | id in r.games && id != gameId :: res.0.games[id] == r.games[id]
    ensures res.1.Pass? <==>
      !(client in r.clientToGame && clientType == Player) && gameId in r.games && verdict.Pass?
    ensures res.1.Fail? ==> res.0.games == r.games && res.0.clientToGame.Keys <= r.clientToGame.Keys
    ensures forall c | c in r.clientToGame && c != client ::
      c in res.0.clientToGame && res.0.clientToGame[c] == r.clientToGame[c]
  {
    if client in r.clientToGame && clientType == Player then
      var current := r.games[r.clientToGame[client]];
      var cleaned := if current.state == Finished then r.(clientToGame := r.clientToGame - {client}) else r;
      (cleaned, Fail(NotAllowed(ALREADY_INGAME)))
    else
      var cleared := if client in r.clientToGame then r.(clientToGame := r.clientToGame - {client}) else r;
      if gameId !in r.games then (cleared, Fail(InvalidAction(NO_GAME)))
      else if verdict.Fail? then (cleared, verdict)
      else
        var joined := AddClient(r.games[gameId], clientType, client);
        (cleared.(games := r.games[gameId := joined], clientToGame := cleared.clientToGame[client := gameId]), Pass)
  }

  /** `removeClientFromGame(client)`. */
  function Leave(r: Registry, client: int): (res: (Registry, Outcome))
    requires Inv(r)
    ensures Inv(res.0)
    ensures res.1.Pass? <==> client in r.clientToGame
    ensures res.1.Fail? ==> res.1.error == InvalidAction(NO_GAME_FOR_CLIENT) && res.0 == r
    ensures res.1.Pass? ==>
      var owner := r.clientToGame[client];
      res.0.clientToGame == r.clientToGame - {client} &&
      res.0.games == r.games[owner := RemoveClient(r.games[owner], client)] &&
      client !in res.0.games[owner].clients
    ensures res.0.nextId == r.nextId && res.0.games.Keys == r.games.Keys
  {
    if client in r.clientToGame then
      var owner := r.clientToGame[client];
      (Registry(r.games[owner := RemoveClient(r.games[owner], client)], r.clientToGame - {client}, r.nextId), Pass)
    else (r, Fail(InvalidAction(NO_GAME_FOR_CLIENT)))
  }

  /**
   * `launchGame`, `pauseGame`, `continueGame` and `abortGame`: pure delegation to the handler
   * stored under `gameId`, which the source looks up without a guard.
   */
  function Control(r: Registry, gameId: int, command: Command): (res: (Registry, Result<bool>))
    requires Inv(r)
    ensures Inv(res.0)
    ensures res.1.Failure? <==> gameId !in r.games
    ensures res.1.Failure? ==> res.1.error == NullReference && res.0 == r
    ensures res.0.clientToGame == r.clientToGame && res.0.nextId == r.nextId
    ensures res.0.games.Keys == r.games.Keys
    ensures forall id | id in r.games && id != gameId :: res.0.games[id] == r.games[id]
    ensures res.1.Success? ==> (res.0.games[gameId], res.1.value) == Apply(r.games[gameId], command)
    ensures res.1.Success? ==> res.0.games[gameId].clients == r.games[gameId].clients
  {
    if gameId !in r.games then (r, Failure(NullReference))
    else
      var (g, answer) := Apply(r.games[gameId], command);
      (r.(games := r.games[gameId := g]), Success(answer))
  }

  /** `run`: every registered handler runs once; `ends` holds the games whose run ends them. */
  function Sweep(r: Registry, ends: set<int>): (r': Registry)
    requires Inv(r)
    ensures Inv(r')
    ensures r'.clientToGame == r.clientToGame && r'.nextId == r.nextId
    ensures r'.games.Keys == r.games.Keys
    ensures forall id | id in r.games :: r'.games[id] == Tick(r.games[id], id in ends)
  {
    r.(games := map id | id in r.games :: Tick(r.games[id], id in ends))
  }

  /** The registry as the constructor leaves it. */
  lemma EmptyRegistry(nextId: int)
    ensures Inv(Registry(map[], map[], nextId))
  {
  }

  // ---------------------------------------------------------------------------------------
  // Joining
  // ---------------------------------------------------------------------------------------

  /**
   * A PLAYER join by a client that already has a membership is refused as "alreadyIngame";
   * no game gains a client; the client's entry is dropped exactly when its game is FINISHED.
   */
  lemma PlayerJoinWhileMapped(r: Registry, gameId: int, client: int, verdict: Outcome)
    requires Inv(r) && client in r.clientToGame
    ensures var (r', o) := Join(r, gameId, client, Player, verdict);
      o == Fail(NotAllowed(ALREADY_INGAME)) &&
      r'.games == r.games && r'.nextId == r.nextId &&
      r'.clientToGame ==
        if r.games[r.clientToGame[client]].state == Finished then r.clientToGame - {client}
        else r.clientToGame
  {
  }

  /** The join of a client without membership: refused only for a missing game or by the handler. */
  lemma JoinUnmapped(r: Registry, gameId: int, client: int, clientType: ClientType, verdict: Outcome)
    requires Inv(r) && client !in r.clientToGame
    ensures var (r', o) := Join(r, gameId, client, clientType, verdict);
      o == (if gameId !in r.games then Fail(InvalidAction(NO_GAME)) else verdict) &&
      (o.Fail? ==> r' == r) &&
      (o.Pass? ==> r'.clientToGame == r.clientToGame[client := gameId] &&
                   r'.games == r.games[gameId := AddClient(r.games[gameId], clientType, client)])
  {
  }

  /**
   * Retry after the stale cleanup: once a PLAYER join was refused because the client's game had
   * FINISHED, the client has no membership and the same call, made again, is no longer refused
   * as "alreadyIngame": it fails only for a missing game or by the handler's own refusal.
   */
  lemma RetryAfterStaleCleanup(r: Registry, gameId: int, client: int,
                                first: Outcome, second: Outcome)
    requires Inv(r) && client in r.clientToGame
    requires r.games[r.clientToGame[client]].state == Finished
    ensures var (r1, o1) := Join(r, gameId, client, Player, first);
      o1 == Fail(NotAllowed(ALREADY_INGAME)) && client !in r1.clientToGame &&
      var (r2, o2) := Join(r1, gameId, client, Player, second);
      o2 == (if gameId !in r.games then Fail(InvalidAction(NO_GAME)) else second) &&
      (o2.Pass? ==> r2.clientToGame[client] == gameId && client in r2.games[gameId].clients)
  {
    PlayerJoinWhileMapped(r, gameId, client, first);
    var (r1, o1) := Join(r, gameId, client, Player, first);
    assert r1.games == r.games;
    JoinUnmapped(r1, gameId, client, Player, second);
  }

  /**
   * A SPECTATOR join by a client with a membership drops the old entry before the target is
   * looked at: a missing target still fails with "noGame", the old entry stays dropped, and the
   * old game's handler is not told, so it still lists the client.
   */
  lemma NonPlayerHop(r: Registry, gameId: int, client: int, verdict: Outcome)
    requires Inv(r) && client in r.clientToGame
    ensures var (r', o) := Join(r, gameId, client, Spectator, verdict);
      var previous := r.clientToGame[client];
      (gameId !in r.games ==> o == Fail(InvalidAction(NO_GAME))) &&
      (o.Fail? ==> r'.clientToGame == r.clientToGame - {client}) &&
      (o.Pass? ==> r'.clientToGame == r.clientToGame[client := gameId]) &&
      client in r'.games[previous].clients
  {
  }

  /**
   * Without an invariant tying game membership back to the index, a hop leaves the old game
   * listing a client whose index entry points elsewhere or nowhere.
   */
  lemma HopLeavesStaleMember(r: Registry, gameId: int, client: int, verdict: Outcome)
    requires Inv(r) && client in r.clientToGame && r.clientToGame[client] != gameId
    ensures var (r', o) := Join(r, gameId, client, Spectator, verdict);
      var previous := r.clientToGame[client];
      client in r'.games[previous].clients &&
      (client !in r'.clientToGame || r'.clientToGame[client] != previous)
  {
    NonPlayerHop(r, gameId, client, verdict);
  }

  // ---------------------------------------------------------------------------------------
  // Leaving
  // ---------------------------------------------------------------------------------------

  /** Two `removeClientFromGame` calls for the same client in a row never both succeed. */
  lemma LeaveTwice(r: Registry, client: int)
    requires Inv(r)
    ensures var (r1, o1) := Leave(r, client);
      var (r2, o2) := Leave(r1, client);
      !(o1.Pass? && o2.Pass?) && o2 == Fail(InvalidAction(NO_GAME_FOR_CLIENT)) && r2 == r1
  {
    var (r1, o1) := Leave(r, client);
    assert client !in r1.clientToGame;
  }

  // ---------------------------------------------------------------------------------------
  // Sequences of operations
  // ---------------------------------------------------------------------------------------

  /** One call into the registry. */
  datatype Op =
    | CreateOp(config: Configuration, name: string, tournament: bool)
    | JoinOp(gameId: int, client: int, clientType: ClientType, verdict: Outcome)
    | LeaveOp(client: int)
    | ControlOp(gameId: int, command: Command)
    | SweepOp(ends: set<int>)
    | DrawIdOp  // another part of the server draws an id from the shared id manager

  /** The registry after one call, whatever the call returned. */
  function Step(r: Registry, checkField: Configuration -> bool, op: Op): (r': Registry)
    requires Inv(r)
    ensures Inv(r')
    ensures r.games.Keys <= r'.games.Keys && r.nextId <= r'.nextId
  {
    match op
    case CreateOp(config, name, tournament) => CreateGame(r, checkField, config, name, tournament).0
    case JoinOp(gameId, client, clientType, verdict) => Join(r, gameId, client, clientType, verdict).0
    case LeaveOp(client) => Leave(r, client).0
    case ControlOp(gameId, command) => Control(r, gameId, command).0
    case SweepOp(ends) => Sweep(r, ends)
    case DrawIdOp => r.(nextId := r.nextId + 1)
  }

  /**
   * Any sequence of calls keeps the invariant (so the unguarded lookups of the current game
   * stay defined) and never unregisters a game or reuses an id.
   */
  function Run(r: Registry, checkField: Configuration -> bool, ops: seq<Op>): (r': Registry)
    requires Inv(r)
    ensures Inv(r')
    ensures r.games.Keys <= r'.games.Keys && r.nextId <= r'.nextId
    decreases |ops|
  {
    if ops == [] then r else Run(Step(r, checkField, ops[0]), checkField, ops[1..])
  }
}
