# Bomb-arena server core in Dafny

This project models the server side of a multiplayer bomb-arena game: a
Node.js server that keeps the state of running matches. Each match is played
in a lobby slot. Every handler call is one step that changes the server's
tables in place, and the model keeps that form.

- `entities.dfy` (module `Entities`) holds the shared values:
  - players, bombs and spawn points;
  - the tile geometry (40-pixel tiles);
  - bomb tables keyed by owner and bomb id;
  - the events the server emits, with who each goes to;
  - the position snapshot loop used by both servers.
- `match.dfy` (module `Match`) models the lobby-enabled server,
  `server/server.js`.
  - A `Game` class holds one match's players, bomb tables and alive count.
  - A `Server` class holds the running games by slot, the lobby slots, the
    catalogue of map spawn lists and the log of everything emitted.
  - Round start, deaths, restarts, kills and snapshots are also written as
    functions on values (`NewRound`, `AfterDeath`, `ApplyKills`,
    `AliveSnapshots`). The methods are proved against these functions.
  - The lemmas prove what the source promises about those functions.
- `draft.dfy` (module `Draft`) models the older single-match server,
  `server/game.js`. It has one table of players, one of bomb tables, and the
  spawn points kept as a first-in first-out pool.
  - A join takes the front point and a disconnect pushes the point back at
    the end. `Join` and `Leave` are the functions on values behind the
    class's handlers.
  - The central invariant, `Conserved`, says every spawn point is either in
    the pool or held by exactly one player. First joins (by a connection
    that has no player yet), leaves and moves preserve it. From it follow:
    - a join followed by the same player's leave gives back the pool as the
      same multiset;
    - two players never share a spawn point;
    - the pool is empty exactly when four players are connected.

Modelling decisions:

- Everything the server emits becomes an append-only `log` of `Emit(target,
  message)` events. The targets are: everyone, one match room, everyone but
  the sender, the sender, and the lobby.
- The model does not fix the order in which a for-in loop visits a table,
  so the emits of such a loop are specified as a multiset equal to a set of
  events. For example, one snapshot per alive player.
- The 2000 ms bomb timer becomes an explicit `FireFuse` call. The caller
  decides when it happens. The returned `Fuse` value holds what the callback
  captures:
  - in `match.dfy`, the `Game` object reference, the slot, the owner and the
    bomb id;
  - in `draft.dfy`, the owner and the bomb id.
- What the bomb's `detonate` reports is a parameter of `FireFuse`: the
  exploded tiles and the killed player ids.
- A handler the source would crash on (a property read on `undefined`) has
  that case excluded by its `requires`. The source does not handle these
  cases. Each such `requires` is listed under Left out with the crash it
  stands for; the fuse crash after a round restart is also reported under
  Findings.

Where the specification of the system and the code disagree, the model
follows the code:

- The specification asks for a bomb on an occupied tile to be rejected. The
  code stores it anyway, so a second bomb at the same tile centre coexists
  with the first. Only the same owner and bomb id overwrite an entry.
- The specification treats too few spawn points for the players as a
  recoverable configuration error. The code crashes while reading the
  missing spawn point, so `BeginRound` requires enough spawn points. The
  server's `Valid` invariant guarantees this for every slot in progress.
- The specification says a fuse whose bomb has vanished is a no-op
  detonation with empty results. In the code that case throws a TypeError;
  see Findings. The model uses the specified behaviour as the correction.
- The specification has `handlePlayerDeath` clear `alive`. In the code the
  fuse callback clears `alive` before calling `handlePlayerDeath`
  (`MarkPlayerDead`, then `HandlePlayerDeath`, in `ApplyKill`).
- The specification says a move from a connection with no resolvable match
  or player is ignored. The code ignores only a missing player: when the
  connection's slot has no running game, `games[this.gameId]` is `undefined`
  and reading its `players` throws (server/server.js:123-125). The model
  requires a running game for `OnMovePlayer`.
- When a player disconnects from a match in progress, the code removes the
  player but does not decrement the alive count. The model does the same.
  A match that lost a player this way can therefore reach a single
  survivor without the round restarting.
- `onStartGame` does not check the slot's state, so a second start in the
  same slot replaces the running game while the old game object keeps its
  players. A fuse placed in the old game still fires: it marks its victims
  dead in the old game, but `handlePlayerDeath` looks the slot up again and
  counts each death, with its "kill player" message and possible restart,
  against the new game. `Match.ApplyKillsApart` models this, and
  `Match.ApplyKillsApartCaptured` and `Match.ApplyKillsApartRunning` state
  its effect on each game.

## Model

| member | source | states |
|---|---|---|
| `Entities.TileCenterInTile` | server/server.js:143-144 | the normalised bomb position lies in the same 40-pixel tile as the reported pixel, exactly half a tile in |
| `Entities.TileCenterIdempotent` | server/server.js:143-144 | normalising an already normalised coordinate leaves it unchanged |
| `Entities.SameTileSameCenter` | server/server.js:143-144 | two pixels snap to the same centre if and only if they lie in the same tile |
| `Entities.TakeAfterPlace` | server/server.js:144-150 | placing a bomb and then firing its fuse hands back that bomb and removes exactly its entry; the tables are restored when the id was new |
| `Entities.TakeBombOnce` | server/server.js:148-150 | the corrected fuse lookup: it finds a bomb exactly when the entry exists; afterwards the entry is gone, a second lookup finds nothing and changes nothing, and other owners' tables are untouched |
| `Entities.EmitSnapshots` | server/game.js:128-133 | the for-in snapshot loop emits, as a multiset, exactly one move event per player of the table (only alive ones when filtered) |
| `Entities.SnapshotsExactlyOnce` | server/game.js:129-131 | each registered player gets exactly one move event per tick; with the alive filter, a dead player gets none |
| `Match.RoundPlayersKeys` | server/server.js:105-111 | a round start writes a player for exactly the ids it is given |
| `Match.RoundPlayersFresh` | server/server.js:105-111 | every written player is stored under its own id and is a fresh, alive player facing "down" at the spawn point of one of that id's positions in the list |
| `Match.RoundPlayersAt` | server/server.js:105-111 | with distinct ids, `ids[i]` gets spawn point `i`, scaled to pixels |
| `Match.NewRoundAt` | server/server.js:104-116 | after a round start, `ids[i]` holds a fresh player at spawn point `i`, with an empty bomb table, and the alive count is the number of ids |
| `Match.NewRoundOthers` | server/server.js:104-116 | a round start leaves the player and bomb table of every unlisted id as they were |
| `Match.NewRoundDeterministic` | server/server.js:105-108 | two round starts with the same ids and map agree on every listed player, bomb table and alive count, and repeating a round start changes nothing |
| `Match.AfterDeathSpec` | server/server.js:163-176 | a death lowers the alive count by exactly one and changes nothing else, unless one player is left; then the round restarts with the count back at the length of the slot's player list (duplicates included), every listed player alive |
| `Match.KilledStaysDead` | server/server.js:150-168 | a killed player is alive again only after a restart whose list names it; without a restart every other player is unchanged |
| `Match.ApplyKillsAppend` | server/server.js:154-157 | applying the kills of one list and then another equals applying the kills of the joined list, events concatenated in order |
| `Match.ApplyKillsSnoc` | server/server.js:154-157 | the kill loop after `i + 1` kills is the loop after `i` kills followed by marking `killed[i]` dead and handling its death |
| `Match.ApplyKillsNoRestart` | server/server.js:154-157 | a fuse whose game still runs in its slot, short of a restart: exactly the killed players get `alive = false`, the alive count drops by one per killed id, the bombs and the other players stay, and the room gets one "kill player" per killed id, in order |
| `Match.ApplyKillsApartAppend` | server/server.js:154-157 | for a fuse whose game was replaced, applying the kills of one list and then another equals applying the kills of the joined list, both games and the events included |
| `Match.ApplyKillsApartSnoc` | server/server.js:154-157 | for a fuse whose game was replaced, iteration `i + 1` marks `killed[i]` dead in the captured game and handles its death in the running game, after the first `i` kills |
| `Match.ApplyKillsApartCaptured` | server/server.js:155 | a replaced game's fuse only clears `alive` of the killed players in the captured game; its bombs, alive count and other players stay |
| `Match.ApplyKillsApartRunning` | server/server.js:163-166 | a replaced game's fuse counts its kills against the game now running in the slot: short of a restart, that game's alive count drops by one per killed id, nothing else in it changes, and its room gets one "kill player" per killed id, in order |
| `Match.RestartBeforeFuseAsWritten` | server/server.js:147-149 | concrete run: a round restart between a bomb's placement and its fuse makes the lookup the callback does as written fail, while the corrected lookup finds nothing and changes nothing |
| `Match.Game.constructor` | server/server.js:92-93 | a new game has no players, no bombs and an alive count of 0 |
| `Match.Game.BeginRound` | server/server.js:104-116 | the loop leaves the game equal to `NewRound` of the old game, ids and spawn list, and keeps players keyed by their ids |
| `Match.Server.constructor` | server/server.js:19-31 | the server starts with no games, the given lobby slots (none in progress) and an empty log |
| `Match.Server.OnClientDisconnect` | server/server.js:57-87 | with no slot, nothing changes. In a setting-up slot, the slot becomes empty and the lobby is told, and no game is touched. In progress, only that id leaves the game; an emptied game is deleted and its slot replaced by a fresh one, otherwise games and slots are unchanged |
| `Match.Server.LeaveRunningGame` | server/server.js:70-86 | the in-progress branch: removes only the id, announces the removal only if the player was there, and retires the slot exactly when the game is left empty |
| `Match.Server.RemoveFromGame` | server/server.js:73-77 | deletes only that player from the game and emits "remove player" to everyone only when it was present |
| `Match.Server.RetireSlot` | server/server.js:79-85 | the game leaves the games table, the slot becomes a fresh empty one and the lobby is told |
| `Match.Server.OnStartGame` | server/server.js:89-102 | the slot goes in progress and holds a new game equal to a round start of the slot's players on the slot's map; the lobby is told and the room receives the start message with those players |
| `Match.Server.OpenGame` | server/server.js:90-97 | registers a fresh empty game under the slot and sets the slot in progress |
| `Match.Server.OnMovePlayer` | server/server.js:122-135 | a connection with no player in the game changes nothing; otherwise only that player's x, y and facing change |
| `Match.Server.OnPlaceBomb` | server/server.js:137-161 | stores the bomb at the centre of its tile under (owner, bomb id), changes nothing else, announces it to the room and returns the fuse holding the captured game |
| `Match.Server.EndRound` | server/server.js:171-177 | the game becomes a round start of the slot's current players and map, and the room receives "restart" |
| `Match.Server.HandlePlayerDeath` | server/server.js:163-169 | the game becomes `AfterDeath` of itself, and the room receives "kill player" followed by "restart" exactly when one player is left |
| `Match.Server.FireFuse` | server/server.js:147-158 | corrected callback: a present bomb entry is deleted from the captured game and the detonation is announced to the room, then every killed player is marked dead in the captured game and its death handled in the slot's running game, in list order (`ApplyKills` when that is the captured game, `ApplyKillsApart` when a second start replaced it); a vanished bomb gives an empty detonation and no change |
| `Match.Server.MarkPlayerDead` | server/server.js:155 | only the killed player's `alive` flag changes, in the game the fuse captured |
| `Match.Server.ApplyKill` | server/server.js:154-157 | one kill: the player is marked dead in the captured game and its death handled in the slot's game; when they are one game it becomes `AfterDeath` of the game with that player marked dead |
| `Match.Server.KillAll` | server/server.js:154-157 | the kill loop leaves the captured game, the slot's game and the log equal to `ApplyKills` (one game) or `ApplyKillsApart` (a replaced game) over the killed list in order |
| `Match.Server.KillNext` | server/server.js:154-157 | one iteration of the kill loop extends the kills done by exactly `killed[i]` |
| `Match.Server.KillNextInPlace` | server/server.js:154-157 | one iteration while the captured game still runs in its slot extends `ApplyKills` by `killed[i]` |
| `Match.Server.KillNextApart` | server/server.js:154-157 | one iteration for a replaced game extends `ApplyKillsApart` by `killed[i]` |
| `Match.Server.BroadcastingLoop` | server/server.js:179-189 | appends exactly the snapshots of every alive player of every running game, each to its game's room, and changes nothing else |
| `Match.SnapshotGames` | server/server.js:180-188 | the nested loops emit, as a multiset, the set of alive-player snapshots of all games |
| `Match.BroadcastExactlyOnce` | server/server.js:180-187 | each alive player of each game gets exactly one snapshot per tick; a dead player gets none in its room |
| `Draft.JoinTakesFront` | server/game.js:81-98 | a join shifts exactly the front point off the pool, so the pool shrinks by one; the new player sits at that point times 40, facing "down", with an empty bomb table; no other player entry changes |
| `Draft.JoinConserves` | server/game.js:81-98 | a join by a connection without a player keeps every spawn point accounted for |
| `Draft.LeaveReturnsSpawn` | server/game.js:57-64 | a disconnect appends the leaving player's spawn point at the end of the pool, keeps the rest of the pool in order and removes only that player |
| `Draft.LeaveConserves` | server/game.js:60-61 | a disconnect keeps every spawn point accounted for |
| `Draft.JoinThenLeave` | server/game.js:57-99 | a join then the same connection's disconnect restores the players and keeps the pool's length and multiset of points, the borrowed point rotated to the back |
| `Draft.NoSharedSpawn` | server/game.js:22-24 | while every spawn point is accounted for, no two players hold the same spawn point |
| `Draft.PoolEmptyWhenFull` | server/game.js:80-81 | while every spawn point is accounted for, pool size plus player count is 4, so the pool runs out exactly when four players are in |
| `Draft.MoveConserves` | server/game.js:101-106 | a move keeps every spawn point accounted for |
| `Draft.AnnounceRoster` | server/game.js:93-95 | the joining connection is sent one "new player" message per already registered player, as a multiset, with no extras |
| `Draft.RosterExactlyOnce` | server/game.js:93-95 | each registered player is announced to the joiner exactly once |
| `Draft.Server.constructor` | server/game.js:17-24 | the draft starts with no players or bombs and the four spawn points in the pool, every point accounted for |
| `Draft.Server.OnNewPlayer` | server/game.js:79-99 | the tables become `Join` of the old tables; the others are sent the new player, the joiner its id and position and then the roster |
| `Draft.Server.AnnounceJoin` | server/game.js:87-95 | the three emits of a join, in source order, with the roster as a multiset |
| `Draft.Server.OnClientDisconnect` | server/game.js:57-64 | the tables become `Leave` of the old tables, the others are told, and spawn-point conservation is kept |
| `Draft.Server.OnMovePlayer` | server/game.js:101-109 | only the mover's x, y and facing change; nothing is emitted |
| `Draft.Server.OnPlaceBomb` | server/game.js:111-126 | stores the bomb at the centre of its tile under (owner, bomb id), announces it to everyone and returns the fuse |
| `Draft.Server.FireFuse` | server/game.js:118-123 | deletes exactly that bomb entry, keeps every owner's table, and announces the detonation to everyone |
| `Draft.Server.BroadcastingLoop` | server/game.js:128-133 | appends one snapshot per registered player, alive or not, to everyone, and changes nothing else |

## Left out

- Express and socket.io setup, static file serving, `listen` and handler registration. These are transport plumbing. Emits are the abstract event log.
- Timers: the 100 ms broadcast interval and the 2000 ms fuse. They become explicit `BroadcastingLoop` and `FireFuse` calls that may be interleaved with the handlers in any order, under the `requires` listed below. The timestamps on "move player" events are dropped.
- `Bomb.detonate`, `Map` (tile grid, hit tests), the `Player` constructor, `MapInfo`, `Lobby` and `PendingGame` are not part of this model.
  - What `detonate` reports is the `Blast` or `explosions` parameter of `FireFuse`.
  - A new player is taken to be alive.
  - `new Game()` is taken to be empty.
  - A fresh `PendingGame` is taken to be an empty slot with no map and no players.
- Match.Server.FireFuse: requires that the killed ids are players of the captured game, which is what `detonate` over that game's players gives. It also requires that the slot still has a running game when the kill list is not empty. A slot loses its game only when that game's last player disconnects, so this excludes one case: a second `onStartGame` replaced the captured game, which kept its players, and the replacement has since emptied. There `handlePlayerDeath` (server/server.js:165) reads `numPlayersAlive` of `undefined` and the callback throws after clearing the first victim's `alive`; the model does not carry the callback into that TypeError.
- Match.Server.OnStartGame: requires that the slot exists, since server/server.js:95 writes `state` of the slot and throws on `undefined`. It also requires that the slot's map is in the map catalogue and has a spawn point for every player, even when the slot has no players. The source reads the catalogue only inside `beginRound`'s loop, so it would also start a game with no players on an unknown map; the model does not cover that start.
- Entities.NearestTileCenter: `findNearestTileCenter` is taken to snap a pixel to the centre of its 40-pixel tile, with floor division. Pixel coordinates are integers. The floating-point positions clients send are not modelled.
- Lobby handlers, `leavePendingGame`, and map registration (`onRegisterMap` in both servers) are not part of this model. The slot table is given when the server is built.
- Match.Server.OnClientDisconnect: in a joinable or full slot the source calls `leavePendingGame`, which is not shown. The model leaves everything unchanged there.
- Match.Server.OnMovePlayer: requires that the connection's slot has a running game. With no slot or a slot not yet started, server/server.js:123-125 reads `players` of `undefined` and throws.
- Match.Server.OnClientDisconnect: requires that a connection with a slot id names an existing lobby slot. Otherwise server/server.js:64 reads `state` of `undefined` and throws.
- Match.Server.OnPlaceBomb: requires that the slot has a running game and the owner has a bomb table. The source crashes otherwise.
- Draft.Server.OnPlaceBomb: requires that the owner has a bomb table. The source crashes otherwise. The draft's map registration is not modelled.
- Draft.Server.OnNewPlayer: requires a non-empty pool. A fifth join reads a property of `undefined`, and the source marks the case as unhandled. `Draft.PoolEmptyWhenFull` states when that happens.
- Draft.Server.OnClientDisconnect and Draft.Server.OnMovePlayer: require that the connection has joined. The source crashes on a connection without a player.
- Draft.Server.FireFuse: requires that the bomb entry is still there, as the draft's callback dereferences it unchecked. Nothing else in the draft empties a bomb table while a fuse is pending. The entry can only be lost through a re-placed bomb id (the client chooses the ids) or a repeated "new player" message from the same connection.
- Spawn-point conservation in the draft is proved only for joins by connections that have no player yet. A repeated "new player" message from the same connection overwrites its player and loses the first spawn point.
- The client files (rendering, interpolation, stage selection, bootstrap) are outside the server core.

## Findings

| source | as written | input that shows it | evidently intended | confidence | as-written member | corrected member |
|---|---|---|---|---|---|---|
| server/server.js:148 | The fuse callback looks up its bomb in the captured game's bomb table and calls `detonate` on it without checking that the entry still exists. A round restart replaces every player's bomb table with an empty one. | Players A and B in a match. A places bomb 1, then bomb 2. Bomb 1's blast kills B, which leaves one player alive, so the round restarts and A's bomb table is emptied. Bomb 2's fuse then finds no entry and throws a TypeError. | A fuse whose bomb has vanished detonates with no effect and an empty explosion list. | high (not executed) | `Match.RestartBeforeFuseAsWritten` (over `Match.FuseLookupAsWritten`) | `Match.Server.FireFuse` (via `Entities.TakeBomb`, proved by `Entities.TakeBombOnce`) |
