/**
 * The handler of a join-as-player request: a chain of guards over the connection's client type,
 * the target game and the client record, then the registry join and one response.
 */
module JoinPlayer {
  import opened Domain
  import opened GameHandlers
  import GameRegistry
  import Server

  /** Where the guard chain leaves a request. */
  datatype Admission =
    | Refuse(error: GameError)  // one of the guards throws
    | Abandon                   // the client record is gone: return without a response
    | Admit(client: Client)     // go on to the registry join

  /**
   * The guards of `handleMessage`, in their order: the connection must be a PLAYER, the game
   * must exist, it must not be IN_PROGRESS or FINISHED, and the client record must be there.
   * `connectionType` is what the client manager reports for the connection, `client` its
   * client record, if any.
   */
  function Guard(games: map<int, Game>, gameId: int, connectionType: ClientType, client: Option<Client>)
    : (a: Admission)
    ensures connectionType != Player ==> a == Refuse(NotAllowed(NO_PLAYER))
    ensures connectionType == Player && gameId !in games ==> a == Refuse(InvalidAction(GAME_NOT_EXIST))
    ensures connectionType == Player && gameId in games && games[gameId].state == InProgress ==>
      a == Refuse(NotAllowed(GAME_ALREADY_STARTED))
    ensures connectionType == Player && gameId in games && games[gameId].state == Finished ==>
      a == Refuse(NotAllowed(GAME_IS_FINISHED))
    ensures !a.Refuse? <==>
      connectionType == Player && gameId in games && games[gameId].state !in {InProgress, Finished}
    ensures a.Abandon? <==> !a.Refuse? && client.None?
    ensures a.Admit? ==> client == Some(a.client)
  {
    if connectionType != Player then Refuse(NotAllowed(NO_PLAYER))
    else if gameId !in games then Refuse(InvalidAction(GAME_NOT_EXIST))
    else
      match games[gameId].state
      case InProgress => Refuse(NotAllowed(GAME_ALREADY_STARTED))
      case Finished => Refuse(NotAllowed(GAME_IS_FINISHED))
      case _ => if client.None? then Abandon else Admit(client.value)
  }

  /** The registry after a request, how `handleMessage` ended, and what it sent. */
  datatype Handled = Handled(next: GameRegistry.Registry, outcome: Outcome, sent: seq<Delivery>)

  /** `handleMessage` on the registry state `r`; `verdict` is how the game handler's `addClient` ends. */
  function Handle(r: GameRegistry.Registry, gameId: int, connectionType: ClientType,
                  client: Option<Client>, verdict: Outcome): (h: Handled)
    requires GameRegistry.Inv(r)
    ensures GameRegistry.Inv(h.next)
    ensures h.next.games.Keys == r.games.Keys && h.next.nextId == r.nextId
    ensures h.outcome.Fail? ==> h.sent == []
    ensures h.sent != [] ==>
      client.Some? && h.sent == [Delivery(GameJoinPlayerResponse(gameId), {client.value.id})]
  {
    match Guard(r.games, gameId, connectionType, client)
    case Refuse(e) => Handled(r, Fail(e), [])
    case Abandon => Handled(r, Pass, [])
    case Admit(c) =>
      var (next, o) := GameRegistry.Join(r, gameId, c.id, Player, verdict);
      Handled(next, o, if o.Pass? then [Delivery(GameJoinPlayerResponse(gameId), {c.id})] else [])
  }

  /** A connection that is not a PLAYER is refused before the game is looked up; nothing changes. */
  lemma NonPlayerRefused(r: GameRegistry.Registry, gameId: int, connectionType: ClientType,
                         client: Option<Client>, verdict: Outcome)
    requires GameRegistry.Inv(r) && connectionType != Player
    ensures Handle(r, gameId, connectionType, client, verdict) == Handled(r, Fail(NotAllowed(NO_PLAYER)), [])
  {
  }

  /** A request for a game that does not exist fails with "gameNotExist"; nothing changes. */
  lemma MissingGameRefused(r: GameRegistry.Registry, gameId: int, client: Option<Client>, verdict: Outcome)
    requires GameRegistry.Inv(r) && gameId !in r.games
    ensures Handle(r, gameId, Player, client, verdict) == Handled(r, Fail(InvalidAction(GAME_NOT_EXIST)), [])
  {
  }

  /** A game that is IN_PROGRESS or FINISHED refuses the request with NotAllowed; nothing changes. */
  lemma StartedOrFinishedRefused(r: GameRegistry.Registry, gameId: int, client: Option<Client>, verdict: Outcome)
    requires GameRegistry.Inv(r) && gameId in r.games && r.games[gameId].state in {InProgress, Finished}
    ensures var h := Handle(r, gameId, Player, client, verdict);
      h.next == r && h.sent == [] && h.outcome.Fail? && h.outcome.error.NotAllowed?
  {
  }

  /** A missing client record ends the request normally, with no change and no response. */
  lemma MissingClientAbandoned(r: GameRegistry.Registry, gameId: int, verdict: Outcome)
    requires GameRegistry.Inv(r) && gameId in r.games && r.games[gameId].state !in {InProgress, Finished}
    ensures Handle(r, gameId, Player, None, verdict) == Handled(r, Pass, [])
  {
  }

  /**
   * Once the guards pass, the request ends exactly as `addClientToGame(gameId, client, PLAYER)`
   * does, and the one response carrying `gameId` is sent exactly when that join returned.
   */
  lemma ResponseExactlyOnJoin(r: GameRegistry.Registry, gameId: int, c: Client, verdict: Outcome)
    requires GameRegistry.Inv(r) && gameId in r.games && r.games[gameId].state !in {InProgress, Finished}
    ensures var h := Handle(r, gameId, Player, Some(c), verdict);
      var (next, o) := GameRegistry.Join(r, gameId, c.id, Player, verdict);
      h.next == next && h.outcome == o &&
      (o.Pass? ==> h.sent == [Delivery(GameJoinPlayerResponse(gameId), {c.id})]) &&
      (o.Fail? ==> h.sent == [])
  {
    assert Guard(r.games, gameId, Player, Some(c)) == Admit(c);
  }

  /**
   * A response goes out exactly when the request was a PLAYER's, for a game that exists and has
   * not started or finished, from a client that was in no game and that the handler took in;
   * and the client is then a member of that game.
   */
  lemma ResponseIff(r: GameRegistry.Registry, gameId: int, connectionType: ClientType,
                    c: Client, verdict: Outcome)
    requires GameRegistry.Inv(r)
    ensures var h := Handle(r, gameId, connectionType, Some(c), verdict);
      (h.sent != [] <==>
        connectionType == Player && gameId in r.games &&
        r.games[gameId].state !in {InProgress, Finished} &&
        c.id !in r.clientToGame && verdict.Pass?) &&
      (h.sent != [] ==>
        h.outcome.Pass? && h.next.clientToGame[c.id] == gameId && c.id in h.next.games[gameId].clients)
  {
    if connectionType == Player && gameId in r.games && r.games[gameId].state !in {InProgress, Finished} {
      ResponseExactlyOnJoin(r, gameId, c, verdict);
      if c.id !in r.clientToGame {
        GameRegistry.JoinUnmapped(r, gameId, c.id, Player, verdict);
      }
    }
  }

  /**
   * A player still listed in a game that has FINISHED asks to join a game in the lobby: the
   * first request is refused as "alreadyIngame" but clears the stale entry, and the same request
   * made again gets through the registry, answering with the join response.
   */
  lemma RejoinAfterFinished(r: GameRegistry.Registry, gameId: int, c: Client)
    requires GameRegistry.Inv(r) && c.id in r.clientToGame
    requires r.games[r.clientToGame[c.id]].state == Finished
    requires gameId in r.games && r.games[gameId].state == Lobby
    ensures var h1 := Handle(r, gameId, Player, Some(c), Pass);
      h1.outcome == Fail(NotAllowed(ALREADY_INGAME)) && h1.sent == [] && c.id !in h1.next.clientToGame &&
      var h2 := Handle(h1.next, gameId, Player, Some(c), Pass);
      h2.outcome == Pass && h2.sent == [Delivery(GameJoinPlayerResponse(gameId), {c.id})] &&
      h2.next.clientToGame[c.id] == gameId
  {
    ResponseExactlyOnJoin(r, gameId, c, Pass);
    GameRegistry.RetryAfterStaleCleanup(r, gameId, c.id, Pass, Pass);
    var h1 := Handle(r, gameId, Player, Some(c), Pass);
    assert h1.next.games == r.games;
    ResponseExactlyOnJoin(h1.next, gameId, c, Pass);
  }

  /**
   * `handleMessage(message, connectionId)` against a GameManager: the guards, the join, and the
   * response through the client manager.
   */
  method HandleMessage(gm: Server.GameManager, gameId: int, connectionType: ClientType,
                       client: Option<Client>, verdict: Outcome) returns (r: Outcome)
    requires gm.Valid()
    modifies gm, gm.clientManager
    ensures gm.Valid()
    ensures var h := Handle(old(gm.Abstract()), gameId, connectionType, client, verdict);
      gm.Abstract() == h.next && r == h.outcome &&
      gm.clientManager.outbox == old(gm.clientManager.outbox) + h.sent
  {
    if connectionType != Player {
      return Fail(NotAllowed(NO_PLAYER));
    }
    var lookup := gm.GetGameHandler(gameId);
    if lookup.Failure? {
      return Fail(lookup.error);
    }
    match lookup.value.state {
      case InProgress => return Fail(NotAllowed(GAME_ALREADY_STARTED));
      case Finished => return Fail(NotAllowed(GAME_IS_FINISHED));
      case _ =>
    }
    if client.None? {
      return Pass;
    }
    var c := client.value;
    r := gm.AddClientToGame(gameId, c, Player, verdict);
    if r.Fail? {
      return;
    }
    gm.clientManager.SendMessageToClient(GameJoinPlayerResponse(gameId), c);
  }
}
