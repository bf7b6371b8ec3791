# Game registry of the battleships server, in Dafny

This project models the game registry of the coding-pirates battleships server (`GameManager`)
and the join-as-player request handler that runs in front of it
(`GameJoinPlayerRequestHandler`), and proves what they promise.

The registry owns two maps:
- `gameHandlersById`, from a game id to its game handler;
- `clientToGame`, the membership index, from a client id to the id of the game the client is in.

It creates games, adds clients to games and removes them, forwards the lifecycle calls
(launch, pause, continue, abort) to the game's handler, runs every handler once per clock tick,
and answers lookups by game id and by client id.

The handler refuses a connection that is not a PLAYER. It also refuses a game that does not
exist or that is IN_PROGRESS or FINISHED. When the client record is missing, it returns without
doing anything. Otherwise it calls the registry join and sends the join response.

Files:
- `domain.dfy` (module `Domain`): game states, client types, clients, configurations, one
  error constructor per exception class with the source's translation keys, and the messages
  sent.
- `game_handlers.dfy` (module `GameHandlers`): the game handler as a value. It holds an id,
  a lifecycle state and the clients attached with their roles. Its reactions to the lifecycle
  calls are stand-ins (see Left out).
- `registry.dfy` (module `GameRegistry`): the registry state as a value (`Registry`) and its
  invariant `Inv`. It has one function for each operation that changes the state, and lemmas
  about them. `Run` applies any sequence of operations.
- `game_manager.dfy` (module `Server`): the classes `IdManager`, `ClientManager` (only a ghost
  outbox of the messages it is asked to send) and `GameManager`. `GameManager` has the two maps
  as fields. Each mutating method is proved to produce exactly the state and result of the
  matching `GameRegistry` function, and to keep `Valid()`, which is `Inv` of its state.
- `join_player.dfy` (module `JoinPlayer`): the guard chain as a pure function (`Guard`), the
  whole handler as a function on the registry state (`Handle`), and `HandleMessage`, a method
  over a `GameManager` that is proved against `Handle`.

The registry invariant `Inv` says two things. Every game is stored under its own id, and that
id was already handed out by the id manager. Every membership points at a registered game whose
handler lists the client. This is what makes the unguarded `get` calls at GameManager.java:88,
:115 and :184 safe. The proofs check those calls against `Inv`.

Calls into code that is not part of this model are parameters:
- `verdict`: whether the game handler's `addClient` returns or throws;
- `ends`: the games whose `run` ends the game on this tick;
- `checkField`: the configuration check, any predicate given to the constructor;
- `connectionType` and `client`: what `ClientManager.getClientTypeFromID` and
  `ClientManager.getClient` return.

## Model

| member | source | states |
|---|---|---|
| `GameRegistry.CreateGame` | src/main/java/de/upb/codingpirates/battleships/server/GameManager.java:67-74 | fails with InvalidGameSize exactly when the field check rejects the configuration, and then the registry (the id counter too) is unchanged; otherwise the new game has a fresh id (not yet a key), is in the lobby with no clients, carries the given name, configuration and tournament flag, is the only entry added, and the membership index is unchanged; the invariant is kept |
| `GameRegistry.Join` | src/main/java/de/upb/codingpirates/battleships/server/GameManager.java:84-104 | succeeds exactly when the call is not a PLAYER join by a client already in a game, the target exists, and the handler accepts; a failure leaves every game as it was and adds no membership; other clients' memberships and all other games are untouched; the invariant is kept |
| `GameRegistry.Leave` | src/main/java/de/upb/codingpirates/battleships/server/GameManager.java:112-120 | succeeds exactly when the client has a membership; then that entry is removed and exactly the owning game's handler drops the client; otherwise fails with "noGameForClient" and changes nothing |
| `GameRegistry.Control` | src/main/java/de/upb/codingpirates/battleships/server/GameManager.java:128-164 | the lifecycle calls only delegate: for a registered game only that game changes, as its handler decides, and its clients stay; the membership index never changes; for an unknown id the unguarded lookup throws a NullPointerException and nothing changes |
| `GameRegistry.Sweep` | src/main/java/de/upb/codingpirates/battleships/server/GameManager.java:204-206 | every registered handler runs exactly once; no game is added or removed; memberships do not change; the invariant is kept |
| `GameRegistry.EmptyRegistry` | src/main/java/de/upb/codingpirates/battleships/server/GameManager.java:40-45 | the two empty maps the registry starts with satisfy the invariant |
| `GameRegistry.PlayerJoinWhileMapped` | src/main/java/de/upb/codingpirates/battleships/server/GameManager.java:86-92 | a PLAYER join by a client already in a game always fails with "alreadyIngame" and no game gains a client; the client's entry is removed exactly when its current game is FINISHED, and is otherwise left as it was |
| `GameRegistry.JoinUnmapped` | src/main/java/de/upb/codingpirates/battleships/server/GameManager.java:97-103 | for a client in no game: a missing target fails with "noGame"; a handler refusal propagates; either failure changes nothing; on success the client maps to the target and the target handler has it with its role |
| `GameRegistry.RetryAfterStaleCleanup` | src/main/java/de/upb/codingpirates/battleships/server/GameManager.java:86-92 | after a PLAYER join was refused because the client's game is FINISHED, the client has no membership, and the repeated call passes the already-in-game check: it fails only with "noGame" or the handler's own refusal, and on success maps the client to the target |
| `GameRegistry.NonPlayerHop` | src/main/java/de/upb/codingpirates/battleships/server/GameManager.java:93-102 | a SPECTATOR join by a client in a game drops the old entry before the target is checked: a missing target fails with "noGame" and the entry stays dropped; the old game's handler still lists the client |
| `GameRegistry.HopLeavesStaleMember` | src/main/java/de/upb/codingpirates/battleships/server/GameManager.java:93-95 | after a SPECTATOR hop to another game, the old game's handler lists a client whose membership no longer points at it |
| `GameRegistry.LeaveTwice` | src/main/java/de/upb/codingpirates/battleships/server/GameManager.java:112-120 | two removals of the same client in a row never both succeed; the second fails with "noGameForClient" and changes nothing |
| `GameRegistry.Step` | src/main/java/de/upb/codingpirates/battleships/server/GameManager.java:67-206 | every registry operation keeps the invariant, never unregisters a game and never moves the id counter back |
| `GameRegistry.Run` | src/main/java/de/upb/codingpirates/battleships/server/GameManager.java:67-206 | any sequence of registry operations keeps the invariant (each client has at most one membership entry, and it points at a registered game whose handler lists the client), never unregisters a game and never reuses an id |
| `Server.IdManager.Generate` | src/main/java/de/upb/codingpirates/battleships/server/GameManager.java:69 | hands out the current counter value and moves the counter past it |
| `Server.ClientManager.SendMessageToClient` | src/main/java/de/upb/codingpirates/battleships/server/handler/GameJoinPlayerRequestHandler.java:61 | appends exactly one delivery of the message to that client |
| `Server.ClientManager.SendMessageToClients` | src/main/java/de/upb/codingpirates/battleships/server/GameManager.java:141 | appends exactly one delivery of the message to the given clients |
| `Server.GameManager.constructor` | src/main/java/de/upb/codingpirates/battleships/server/GameManager.java:47-57 | starts with both maps empty and the invariant holding |
| `Server.GameManager.CreateGame` | src/main/java/de/upb/codingpirates/battleships/server/GameManager.java:67-74 | the check runs first; only on success is an id drawn from the id manager and the handler stored; new state and result are those of `GameRegistry.CreateGame`; the invariant is kept |
| `Server.GameManager.AddClientToGame` | src/main/java/de/upb/codingpirates/battleships/server/GameManager.java:84-104 | changes the two maps in place with the source's order of removals and insertions; new state and result are those of `GameRegistry.Join`; the invariant is kept |
| `Server.GameManager.RemoveClientFromGame` | src/main/java/de/upb/codingpirates/battleships/server/GameManager.java:112-120 | new state and result are those of `GameRegistry.Leave`; the invariant is kept |
| `Server.GameManager.LaunchGame` | src/main/java/de/upb/codingpirates/battleships/server/GameManager.java:128-131 | returns the handler's answer; new state and result are those of `GameRegistry.Control` with launch |
| `Server.GameManager.PauseGame` | src/main/java/de/upb/codingpirates/battleships/server/GameManager.java:138-142 | delegates as `GameRegistry.Control` with pause, then sends one pause notification to every client of the game; an unknown id changes nothing and sends nothing |
| `Server.GameManager.ContinueGame` | src/main/java/de/upb/codingpirates/battleships/server/GameManager.java:149-153 | delegates as `GameRegistry.Control` with continue, then sends one continue notification to every client of the game; an unknown id changes nothing and sends nothing |
| `Server.GameManager.AbortGame` | src/main/java/de/upb/codingpirates/battleships/server/GameManager.java:161-164 | delegates as `GameRegistry.Control` with abort and the points flag, and sends nothing |
| `Server.GameManager.GetGameHandlers` | src/main/java/de/upb/codingpirates/battleships/server/GameManager.java:169-171 | returns every registered game, each one stored under its own id, and nothing else |
| `Server.GameManager.GetGameHandlerForClientId` | src/main/java/de/upb/codingpirates/battleships/server/GameManager.java:179-185 | fails with "noGameForClient" exactly when the client has no membership; otherwise the client's game id is registered (the invariant) and the result is that game, which lists the client; changes nothing |
| `Server.GameManager.GetGameHandler` | src/main/java/de/upb/codingpirates/battleships/server/GameManager.java:193-199 | fails with "gameNotExist" exactly when the id is not registered; otherwise returns the game stored under it, whose id is that id; changes nothing |
| `Server.GameManager.Run` | src/main/java/de/upb/codingpirates/battleships/server/GameManager.java:204-206 | the loop visits the handlers in any order, and each runs exactly once; the new state is that of `GameRegistry.Sweep`; the invariant is kept |
| `JoinPlayer.Guard` | src/main/java/de/upb/codingpirates/battleships/server/handler/GameJoinPlayerRequestHandler.java:36-56 | a non-PLAYER connection is refused with "noPlayer" whatever the game; a missing game with "gameNotExist"; an IN_PROGRESS game with "gameAlreadyStarted"; a FINISHED one with "gameIsFinished"; every other state gets past the guards, and then the request is abandoned exactly when the client record is missing |
| `JoinPlayer.Handle` | src/main/java/de/upb/codingpirates/battleships/server/handler/GameJoinPlayerRequestHandler.java:32-62 | keeps the invariant, registers no game and draws no id; a failed request sends nothing; at most the one join response, carrying the game id, goes to the requesting client |
| `JoinPlayer.NonPlayerRefused` | src/main/java/de/upb/codingpirates/battleships/server/handler/GameJoinPlayerRequestHandler.java:36-37 | a non-PLAYER connection fails with NotAllowed, the registry is unchanged, and nothing is sent |
| `JoinPlayer.MissingGameRefused` | src/main/java/de/upb/codingpirates/battleships/server/handler/GameJoinPlayerRequestHandler.java:39-43 | a request for a game that does not exist fails with "gameNotExist" before any join; the registry is unchanged and nothing is sent |
| `JoinPlayer.StartedOrFinishedRefused` | src/main/java/de/upb/codingpirates/battleships/server/handler/GameJoinPlayerRequestHandler.java:45-50 | a game that is IN_PROGRESS or FINISHED refuses with NotAllowed; no membership changes and nothing is sent |
| `JoinPlayer.MissingClientAbandoned` | src/main/java/de/upb/codingpirates/battleships/server/handler/GameJoinPlayerRequestHandler.java:52-56 | a missing client record ends the request normally, without a registry change and without a response |
| `JoinPlayer.ResponseExactlyOnJoin` | src/main/java/de/upb/codingpirates/battleships/server/handler/GameJoinPlayerRequestHandler.java:58-61 | past the guards, the handler ends as `addClientToGame(gameId, client, PLAYER)` does; the join response is sent once exactly when that call returned; a failure propagates with nothing sent |
| `JoinPlayer.ResponseIff` | src/main/java/de/upb/codingpirates/battleships/server/handler/GameJoinPlayerRequestHandler.java:36-61 | a response is sent if and only if the connection is a PLAYER, the game exists and has not started or finished, the client is in no game and the game handler accepts; the client then maps to that game and is listed by its handler |
| `JoinPlayer.RejoinAfterFinished` | src/main/java/de/upb/codingpirates/battleships/server/handler/GameJoinPlayerRequestHandler.java:58-61 | a player still listed in a FINISHED game who asks to join a lobby game is refused once with "alreadyIngame", which clears the stale entry; the same request, repeated, succeeds and sends the join response |
| `JoinPlayer.HandleMessage` | src/main/java/de/upb/codingpirates/battleships/server/handler/GameJoinPlayerRequestHandler.java:32-62 | runs the guards through `GameManager.GetGameHandler`, then `GameManager.AddClientToGame`, then the send; registry state, result and outbox are those of `Handle`; the invariant is kept |

## Left out

- Concurrency: the `Timer` thread that calls `run` every millisecond, and the synchronized
  maps. `run` is one sequential sweep, and every operation runs to completion alone.
- The game handler is not part of this model. It is a value in the map, so handler objects are
  not shared or aliased. A handler returned by a lookup is a copy, and changes made through it
  are not modelled.
- Launch, pause, continue, abort and run change the handler as `GameHandlers.Apply` and
  `GameHandlers.Tick` say. The handler's class is not part of this model. Only one rule comes
  from the code: `launchGame` answers false with fewer than two players (the documentation at
  GameManager.java:126). The others are this model's own stand-ins: a new game starts in the
  lobby with no clients, points or rounds; launch also needs the lobby; pause and continue
  switch between IN_PROGRESS and PAUSED; and abort ends any game that is not yet FINISHED. The proofs about the registry use only two facts about them: a handler keeps
  its id and its clients.
- The handler's `addClient` either returns or throws (the `verdict` parameter). Any partial
  change it makes before throwing is not modelled.
- A handler's `run` cannot throw in the model. In the source an exception there would escape
  the `forEach` at GameManager.java:205 and the handlers after it would not run. It would also
  escape the `TimerTask.run` at GameManager.java:53-54, and an uncaught exception there ends the
  `java.util.Timer` thread, so no later sweep would run either. The code has no isolation
  between handlers, so none is claimed.
- `ConfigurationChecker.checkField` is any predicate on the configuration. The configuration
  keeps only a few fields.
- `IdManager.generate` is a counter. Other parts of the server may draw ids from it too; the
  operation `DrawIdOp` of `GameRegistry.Step` models such a draw, and `Step` and `Run` prove
  that it keeps the invariant. The 32-bit range of `Id.getInt()` is not modelled, because
  the ids are unbounded integers.
- `ClientManager` keeps only a ghost outbox of deliveries. The notification payloads from
  `NotificationBuilder` are reduced to their kind. `getClientTypeFromID` and `getClient` are
  parameters of the handler.
- `Server.GameManager.GetGameHandlers`: the source returns a live view of the map's values, and
  the model returns a snapshot set of them.
- Logging, and the observer behaviour of the JavaFX `ObservableMap`.
- `getGameMappings`, which hands the live map to callers: aliasing outside the registry.
- The spectator, remaining-time, points and lobby request handlers. Their `handle` bodies are
  empty, so they have no behaviour to model.
- Facts of the code that the model keeps as they are, and that a reader might not expect:
  - A SPECTATOR hop keeps only one direction of the agreement between handlers and the
    membership index: a membership implies the handler lists the client, but the old handler
    still lists a client that moved on (`GameRegistry.HopLeavesStaleMember`).
  - `addClientToGame` does not check the game state for SPECTATOR joins.
  - A PLAYER may join a PAUSED game: the switch at GameJoinPlayerRequestHandler.java:45-50 has
    no PAUSED case, and `JoinPlayer.Guard` admits it.
  - Nothing removes a client's entry when its game finishes. The entry goes only when that
    client leaves (GameManager.java:115), joins as a non-PLAYER (:94), or makes a PLAYER join,
    which drops the entry and is still refused (:89-92). The game itself is never unregistered.
  - An exception in one handler's `run` escapes the `forEach` at GameManager.java:205 (see the
    line on `run` above).
