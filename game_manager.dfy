/**
 * The server objects around the registry: the id manager, the client manager (reduced to the
 * record of what it sends) and the GameManager that owns the two maps and changes them in place.
 * Every mutating method of GameManager is proved against the function in GameRegistry that
 * describes its operation, and keeps the registry invariant.
 */
module Server {
  import opened Domain
  import opened GameHandlers
  import GameRegistry

  /** The id allocator shared by the whole server: it hands out increasing ids. */
  class IdManager {
    var next: int

    constructor (first: int)
      ensures next == first
    {
      next := first;
    }

    /** `generate()`: an id never handed out before. */
    method Generate() returns (id: int)
      modifies this
      ensures id == old(next) && next == id + 1
    {
      id := next;
      next := next + 1;
    }
  }

  /** The client manager, as far as the core sees it: the messages it is asked to send. */
  class ClientManager {
    ghost var outbox: seq<Delivery>

    constructor ()
      ensures outbox == []
    {
      outbox := [];
    }

    /** `sendMessageToClient(message, client)`. */
    method SendMessageToClient(message: Message, client: Client)
      modifies this
      ensures outbox == old(outbox) + [Delivery(message, {client.id})]
    {
      outbox := outbox + [Delivery(message, {client.id})];
    }

    /** `sendMessageToClients(message, clients)`. */
    method SendMessageToClients(message: Message, clients: set<int>)
      modifies this
      ensures outbox == old(outbox) + [Delivery(message, clients)]
    {
      outbox := outbox + [Delivery(message, clients)];
    }
  }

  class GameManager {
    const clientManager: ClientManager
    const idManager: IdManager
    /** The configuration check GameManager inherits from ConfigurationChecker. */
    const checkField: Configuration -> bool

    /** Maps a game id to its handler. */
    var gameHandlersById: map<int, Game>
    /** Maps a client id to the id of the game it is in. */
    var clientToGame: map<int, int>

    ghost function Abstract(): GameRegistry.Registry
      reads this, idManager
    {
      GameRegistry.Registry(gameHandlersById, clientToGame, idManager.next)
    }

    ghost predicate Valid()
      reads this, idManager
    {
      GameRegistry.Inv(Abstract())
    }

    constructor (clientManager: ClientManager, idManager: IdManager, checkField: Configuration -> bool)
      ensures Valid()
      ensures this.clientManager == clientManager && this.idManager == idManager
      ensures this.checkField == checkField
      ensures gameHandlersById == map[] && clientToGame == map[]
    {
      this.clientManager := clientManager;
      this.idManager := idManager;
      this.checkField := checkField;
      gameHandlersById := map[];
      clientToGame := map[];
      GameRegistry.EmptyRegistry(idManager.next);
    }

    /** `createGame(configuration, name, tournament)`. */
    method CreateGame(config: Configuration, name: string, tournament: bool) returns (r: Result<Game>)
      requires Valid()
      modifies this, idManager
      ensures Valid()
      ensures (Abstract(), r) == GameRegistry.CreateGame(old(Abstract()), checkField, config, name, tournament)
    {
      if !checkField(config) {
        return Failure(InvalidGameSize);
      }
      var id := idManager.Generate();
      var handler := NewGame(name, id, config, tournament);
      gameHandlersById := gameHandlersById[id := handler];
      return Success(handler);
    }

    /**
     * `addClientToGame(gameId, client, clientType)`; `verdict` is how the target handler's
     * `addClient` ends.
     */
    method AddClientToGame(gameId: int, client: Client, clientType: ClientType, verdict: Outcome)
      returns (r: Outcome)
      requires Valid()
      modifies this
      ensures Valid()
      ensures (Abstract(), r) == GameRegistry.Join(old(Abstract()), gameId, client.id, clientType, verdict)
    {
      if client.id in clientToGame {
        if clientType == Player {
          var handler := gameHandlersById[clientToGame[client.id]];
          if handler.state == Finished {
            clientToGame := clientToGame - {client.id};
          }
          return Fail(NotAllowed(ALREADY_INGAME));
        } else {
          clientToGame := clientToGame - {client.id};
        }
      }
      if gameId in gameHandlersById {
        if verdict.Fail? {
          return verdict;
        }
        gameHandlersById := gameHandlersById[gameId := AddClient(gameHandlersById[gameId], clientType, client.id)];
        clientToGame := clientToGame[client.id := gameId];
        return Pass;
      } else {
        return Fail(InvalidAction(NO_GAME));
      }
    }

    /** `removeClientFromGame(client)`. */
    method RemoveClientFromGame(client: int) returns (r: Outcome)
      requires Valid()
      modifies this
      ensures Valid()
      ensures (Abstract(), r) == GameRegistry.Leave(old(Abstract()), client)
    {
      if client in clientToGame {
        var owner := clientToGame[client];
        clientToGame := clientToGame - {client};
        gameHandlersById := gameHandlersById[owner := RemoveClient(gameHandlersById[owner], client)];
        return Pass;
      } else {
        return Fail(InvalidAction(NO_GAME_FOR_CLIENT));
      }
    }

    /** `launchGame(gameId)`: the handler's answer, false when it refuses to start. */
    method LaunchGame(gameId: int) returns (r: Result<bool>)
      requires Valid()
      modifies this
      ensures Valid()
      ensures (Abstract(), r) == GameRegistry.Control(old(Abstract()), gameId, Launch)
    {
      if gameId !in gameHandlersById {
        return Failure(NullReference);
      }
      var (handler, launched) := Apply(gameHandlersById[gameId], Launch);
      gameHandlersById := gameHandlersById[gameId := handler];
      return Success(launched);
    }

    /** `pauseGame(gameId)`: delegate, then notify every client of the game. */
    method PauseGame(gameId: int) returns (r: Outcome)
      requires Valid()
      modifies this, clientManager
      ensures Valid()
      ensures var res := GameRegistry.Control(old(Abstract()), gameId, Pause);
        Abstract() == res.0 && r == (if res.1.Success? then Pass else Fail(res.1.error))
      ensures clientManager.outbox == old(clientManager.outbox) +
        (if gameId in gameHandlersById then [Delivery(PauseNotification, AllClients(gameHandlersById[gameId]))] else [])
    {
      if gameId !in gameHandlersById {
        return Fail(NullReference);
      }
      var (handler, _) := Apply(gameHandlersById[gameId], Pause);
      gameHandlersById := gameHandlersById[gameId := handler];
      clientManager.SendMessageToClients(PauseNotification, AllClients(gameHandlersById[gameId]));
      return Pass;
    }

    /** `continueGame(gameId)`: delegate, then notify every client of the game. */
    method ContinueGame(gameId: int) returns (r: Outcome)
      requires Valid()
      modifies this, clientManager
      ensures Valid()
      ensures var res := GameRegistry.Control(old(Abstract()), gameId, Continue);
        Abstract() == res.0 && r == (if res.1.Success? then Pass else Fail(res.1.error))
      ensures clientManager.outbox == old(clientManager.outbox) +
        (if gameId in gameHandlersById then [Delivery(ContinueNotification, AllClients(gameHandlersById[gameId]))] else [])
    {
      if gameId !in gameHandlersById {
        return Fail(NullReference);
      }
      var (handler, _) := Apply(gameHandlersById[gameId], Continue);
      gameHandlersById := gameHandlersById[gameId := handler];
      clientManager.SendMessageToClients(ContinueNotification, AllClients(gameHandlersById[gameId]));
      return Pass;
    }

    /** `abortGame(gameId, points)`: with `points` false the handler zeroes every score. */
    method AbortGame(gameId: int, points: bool) returns (r: Outcome)
      requires Valid()
      modifies this
      ensures Valid()
      ensures var res := GameRegistry.Control(old(Abstract()), gameId, Abort(points));
        Abstract() == res.0 && r == (if res.1.Success? then Pass else Fail(res.1.error))
    {
      if gameId !in gameHandlersById {
        return Fail(NullReference);
      }
      var (handler, _) := Apply(gameHandlersById[gameId], Abort(points));
      gameHandlersById := gameHandlersById[gameId := handler];
      return Pass;
    }

    /** `getGameHandlers()`: every registered game, and nothing else. */
    method GetGameHandlers() returns (games: set<Game>)
      requires Valid()
      ensures forall id | id in gameHandlersById :: gameHandlersById[id] in games
      ensures forall g | g in games :: g.id in gameHandlersById && gameHandlersById[g.id] == g
    {
      games := set id | id in gameHandlersById :: gameHandlersById[id];
    }

    /**
     * `getGameHandlerForClientId(clientId)`: the game the client is in. The invariant is what
     * makes the lookup of its game id defined.
     */
    method GetGameHandlerForClientId(clientId: int) returns (r: Result<Game>)
      requires Valid()
      ensures r.Failure? <==> clientId !in clientToGame
      ensures r.Failure? ==> r.error == InvalidAction(NO_GAME_FOR_CLIENT)
      ensures r.Success? ==>
        clientToGame[clientId] in gameHandlersById &&
        r.value == gameHandlersById[clientToGame[clientId]] && clientId in r.value.clients
    {
      if clientId !in clientToGame {
        return Failure(InvalidAction(NO_GAME_FOR_CLIENT));
      }
      return Success(gameHandlersById[clientToGame[clientId]]);
    }

    /** `getGameHandler(id)`. */
    method GetGameHandler(id: int) returns (r: Result<Game>)
      requires Valid()
      ensures r.Failure? <==> id !in gameHandlersById
      ensures r.Failure? ==> r.error == InvalidAction(GAME_NOT_EXIST)
      ensures r.Success? ==> r.value == gameHandlersById[id] && r.value.id == id
    {
      if id !in gameHandlersById {
        return Failure(InvalidAction(GAME_NOT_EXIST));
      }
      return Success(gameHandlersById[id]);
    }

    /**
     * `run()`: one sweep over the registered handlers, in any order, each running once;
     * `ends` holds the games whose handler ends the game on this run.
     */
    method Run(ends: set<int>)
      requires Valid()
      modifies this
      ensures Valid()
      ensures Abstract() == GameRegistry.Sweep(old(Abstract()), ends)
    {
      var pending := gameHandlersById.Keys;
      while pending != {}
        invariant pending <= old(gameHandlersById).Keys
        invariant gameHandlersById.Keys == old(gameHandlersById).Keys
        invariant clientToGame == old(clientToGame)
        invariant forall id | id in gameHandlersById ::
          gameHandlersById[id] ==
            if id in pending then old(gameHandlersById)[id] else Tick(old(gameHandlersById)[id], id in ends)
        decreases pending
      {
        NonEmptyHasElement(pending);
        var id :| id in pending;
        gameHandlersById := gameHandlersById[id := Tick(gameHandlersById[id], id in ends)];
        pending := pending - {id};
      }
      ghost var swept := GameRegistry.Sweep(old(Abstract()), ends);
      assert gameHandlersById.Keys == swept.games.Keys;
      forall id | id in gameHandlersById
        ensures gameHandlersById[id] == swept.games[id]
      {
      }
      assert gameHandlersById == swept.games;
    }
  }

  // ---------------------------------------------------------------------------------------
  // Set facts for the sweep. They serve only the choice `var id :| id in pending` in
  // `GameManager.Run`, whose existence the verifier needs spelled out.
  // ---------------------------------------------------------------------------------------

  /** A set with no element is the empty set. */
  lemma AllAbsentIsEmpty(s: set<int>)
    requires forall x :: x !in s
    ensures s == {}
  {
    assert forall x :: x in s <==> x in {};
  }

  /** A non-empty set has an element: the next handler the sweep visits. */
  lemma NonEmptyHasElement(s: set<int>)
    requires s != {}
    ensures exists x :: x in s
  {
    if forall x :: x !in s {
      AllAbsentIsEmpty(s);
    }
  }
}
