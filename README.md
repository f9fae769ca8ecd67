# Fly or Not: room server and game store, modelled in Dafny

"Fly or Not" is a multiplayer party game. Players join a room by id. The host
starts a timed round in which objects are shown one every half second, and each
player raises a hand when the object shown can fly. The server, in
`pages/api/socketio.ts`, keeps a `rooms` table in memory and handles five kinds of
request on it:

- `joinRoom` creates the room on first use, then adds or renames the player.
- `startGame` picks the round's objects and installs a 100 ms interval that reveals
  objects and counts down.
- `playerReaction` scores a reaction.
- `resetGame` sends the room back to waiting.
- `handlePlayerLeaving` runs for both an explicit leave and a disconnect.

The client keeps a small store, `lib/store.ts`, with setters for the phase, the
player list (de-duplicated by id), the host flag and the local player.

The model is split into these modules:

| module | file | what it holds |
|---|---|---|
| `Types` | `types.dfy` | the records of `lib/types.ts` |
| `Players` | `players.dfy` | the player-list helpers: `findIndex` by id, and the de-duplicating fold `Object.values(players.reduce(...))` |
| `Roster` | `roster.dfy` | what join, leave and reset do to a room's players and host id, as functions on values, with the player invariants and the lemmas that they are kept |
| `Scoring` | `scoring.dfy` | which object a reaction is judged against, and the score rule |
| `Catalog` | `catalog.dfy` | the 13-object catalog and how a round picks its objects |
| `Round` | `round.dfy` | the round's two countdowns, in integer tenths of a second |
| `Rooms` | `room.dfy` | a room record as a class whose methods change its fields in place |
| `SocketServer` | `socket_server.dfy` | the server as a class with the `rooms` table, the live intervals, each connection's `socket.data` and an outbox of emitted events |
| `GameStore` | `store.dfy` | the client store as a class |

Each method that changes a room is proved to apply the matching `Roster` or
`Scoring` function to the old players. The properties of those functions are
proved as lemmas.

The server keeps two invariants, preserved by every handler:

- `Valid` is structural. Every room in the table and every room a live interval
  drives keeps its object index in range. A room in play, or driven by an interval,
  has objects to reveal.
- `Sound` covers the players. In every room of the table the ids are unique, no
  score is negative, exactly one player is host and its id is `hostId`. A room is
  in the table only while it has players.

The model keeps these source behaviours as they are written:

- There is no host check on `startGame` or `resetGame`.
- `startGame` does not clear an interval already running for the room. The old
  interval keeps ticking on the same room.
- The end-of-round tick clears `room.gameInterval`, which is the room's latest
  interval and not necessarily its own.
- A leave deletes an emptied room but does not unbind the connection.
- A second `startGame` leaves the first interval running, and nothing ever clears
  it. `resetGame` and the first round's end tick both clear `room.gameInterval`,
  which is the second interval. So when the first round's time runs out first, its end
  tick stops the second round early, and then the first interval goes on firing, with another `gameEnded`
  every 100 ms. `Server.RestartLeavesFirstInterval` shows the first half of this:
  after start, start and reset, the first interval is still installed on the room.

In these places the code does less, or something else, than a reader of the game's
rules might expect, and the model follows the code:

- Starting a round while one runs might be expected to cancel the old interval. The
  code does not cancel it.
- A round might be expected to have `duration` objects. The code takes
  `slice(0, duration)`, so a round has min(duration, 13) objects.
- A round of D seconds might be expected to make D reveals. The model counts in
  exact tenths, so `Round.RoundTerminates` proves 2·D reveals for it. The source's
  floating-point countdown does not reach that count (see "## Left out").
- Malformed join payloads might be expected to be rejected with `error`. The code
  does no validation.

## Model

| member | source | states |
|---|---|---|
| Players.Upsert | pages/api/socketio.ts:121-122 | one step of the fold, `acc[p.id] = p`: the new entry is present, the list grows by at most one, and every other entry was already there |
| Players.Dedup | lib/store.ts:26-31 | the de-duplicating fold: never longer than its input, and every entry comes from the input |
| Players.IndexOfId | pages/api/socketio.ts:95 | `findIndex` by id: -1 exactly when the id is absent; otherwise the first position carrying the id |
| Players.LastWith | lib/store.ts:26-31 | the entry of a list that the fold keeps for an id: it carries that id, sits at some position of the list, and no later position carries the id |
| Players.DedupNoDup | pages/api/socketio.ts:118-127 | the de-duplicating fold leaves no two entries with the same id |
| Players.DedupIds | pages/api/socketio.ts:118-127 | the fold keeps exactly the ids of its input |
| Players.DedupDistinct | lib/store.ts:22-33 | the stored list has unique ids, the input's ids, and one entry per distinct input id |
| Players.DedupLastWins | lib/store.ts:26-31 | every stored entry is the last input entry with its id (last write wins) |
| Players.DedupLookup | lib/store.ts:26-31 | for every id in the input, looking it up in the stored list finds the last input entry with that id |
| Players.NoDupCard | lib/store.ts:22-33 | a list with unique ids has as many entries as distinct ids |
| Players.DedupIdentity | pages/api/socketio.ts:118-127 | a list that already has unique ids comes out of the fold unchanged |
| Players.DedupIdempotent | lib/store.ts:26-33 | feeding the stored list back through the fold gives the same list |
| Roster.ExactlyOneHost | pages/api/socketio.ts:103-105 | under the room invariant a non-empty room has exactly one player flagged host, and it is the player whose id is `hostId` |
| Roster.Join | pages/api/socketio.ts:94-127 | the join on a room's players and host id: at most one entry more, and the host id is the old one or the joiner's |
| Roster.JoinKeepsOthers | pages/api/socketio.ts:94-127 | a join touches only the joiner's entry: every entry with another id is an old entry |
| Roster.Fresh | pages/api/socketio.ts:82-92 | the record of a room just created: no players, `hostId` the joiner's |
| Roster.JoinFreshValid | pages/api/socketio.ts:82-127 | the room a first join creates holds one player and keeps the invariant |
| Roster.JoinFresh | pages/api/socketio.ts:82-92 | joining a room just created leaves the joiner as its only player, host, with score 0, and `hostId` the joiner's |
| Roster.Rejoin | pages/api/socketio.ts:95-100 | rejoining with an id already present changes only that player's name; count, order, ids, scores, host flags and `hostId` stay |
| Roster.JoinNew | pages/api/socketio.ts:101-116 | a new id is appended with score 0, host exactly when the room was empty, and `hostId` then becomes the joiner's |
| Roster.AppendValid | pages/api/socketio.ts:101-116 | appending a new id with score 0, flagged host exactly when the room was empty, keeps the room invariant, with `hostId` the newcomer's when the room was empty |
| Roster.JoinIds | pages/api/socketio.ts:94-127 | whatever the room held, a join leaves unique ids: the old ids plus the joiner's |
| Roster.RejoinValid | pages/api/socketio.ts:95-100 | a rejoin keeps the room invariant, and the joiner is flagged host exactly when `hostId` is theirs |
| Roster.JoinNewValid | pages/api/socketio.ts:101-127 | a first join keeps the room invariant, and the joiner is flagged host exactly when `hostId` is theirs |
| Roster.JoinValid | pages/api/socketio.ts:94-133 | every join keeps the invariant and adds the joiner's id; `roomJoined.isHost` (`hostId === playerId`) agrees with the joiner's own host flag |
| Roster.RemoveAt | pages/api/socketio.ts:339 | `splice(i, 1)`: one entry fewer, the entries before `i` in place and those after shifted down by one |
| Roster.Leave | pages/api/socketio.ts:339-363 | the leave on a room's players: one entry fewer; the entries after the first are the spliced list's; the first differs at most in its host flag; `hostId` stays unless the host left, and then it is the first remaining player's |
| Roster.NewHostId | pages/api/socketio.ts:357-363 | the `newHostId` of `playerLeft`: present exactly when the host left and players remain, and then the id of the first remaining player, who is the new host |
| Roster.RemoveAtIds | pages/api/socketio.ts:339 | removing an entry from a list with unique ids removes exactly its id |
| Roster.LeaveValid | pages/api/socketio.ts:335-365 | a leave that keeps players keeps the invariant and removes exactly the departing id; when the host left, the first remaining player becomes host, `hostId` follows and is reported as new host; otherwise the rest is untouched and no new host is reported |
| Roster.ZeroScores | pages/api/socketio.ts:248-251 | the reset players: same count and order, every score 0, ids, names and host flags kept |
| Roster.ZeroScoresFixed | pages/api/socketio.ts:248-251 | players who all have score 0 are left as they are |
| Roster.ZeroScoresIdempotent | pages/api/socketio.ts:248-251 | zeroing twice gives the same players as zeroing once |
| Roster.ResetValid | pages/api/socketio.ts:243-251 | zeroing the scores keeps the room invariant and the ids |
| Scoring.JudgedIndex | pages/api/socketio.ts:208-209 | the judged position is inside the round's objects |
| Scoring.JudgedPrecedes | pages/api/socketio.ts:208-209 | the judged position is the one just before the current index, wrapping round |
| Scoring.JudgedAfterReveal | pages/api/socketio.ts:184-190 | right after a reveal moves the index on, the judged object is the object that reveal showed |
| Scoring.IsCorrect | pages/api/socketio.ts:211 | a reaction is correct exactly when `reacted` equals the object's `canFly` |
| Scoring.NewScore | pages/api/socketio.ts:216-223 | a correct reaction adds exactly 10; a wrong one takes off 5 when the score is at least 5 and sets it to 0 otherwise; a non-negative score stays non-negative |
| Scoring.Scored | pages/api/socketio.ts:214-224 | the score update on the list: same length, and an unknown id leaves the list as it is (`ScoredEffect` states which entry changes and how) |
| Scoring.ScoredEffect | pages/api/socketio.ts:214-224 | only the player with the id gets the new score, and nothing else changes; an unknown id changes nothing; the room invariant is kept |
| Catalog.RoundDuration | pages/api/socketio.ts:153 | `duration \|\| 10`: a non-zero duration is kept, a duration of 0 becomes 10, and the result is never 0 |
| Catalog.RoundObjects | pages/api/socketio.ts:156 | `slice(0, d)` of the shuffled catalog: min(d, length) objects, each the shuffled catalog's object at the same position |
| Catalog.PrefixOfPermutation | pages/api/socketio.ts:156 | a prefix of a permutation of the catalog has min(n, catalog size) entries, all drawn from the catalog without repetition |
| Catalog.RoundObjectsFromCatalog | pages/api/socketio.ts:22-36 | a round over the 13-object catalog gets min(duration \|\| 10, 13) objects, never none, drawn from the catalog without repetition |
| Round.Step | pages/api/socketio.ts:180-199 | a counting tick takes one tenth off the round; the object window is refilled when the tick reveals, and otherwise shrinks but stays positive |
| Round.RunFromStart | pages/api/socketio.ts:166-199 | after k ≤ 10·d ticks of a d-second round, 10·d − k tenths are left, the window is at 5 − k mod 5, and k / 5 objects have been revealed |
| Round.RoundTerminates | pages/api/socketio.ts:166-200 | a d-second round counts for exactly 10·d ticks, reveals 2·d objects, and the next tick finds it over |
| Rooms.Room.constructor | pages/api/socketio.ts:83-91 | a new room record: no players, waiting, `hostId` the joiner's, no objects, index 0, no interval, duration 10 |
| Rooms.Room.Join | pages/api/socketio.ts:94-127 | the room's players and host id become `Roster.Join` of the old ones; the round fields stay |
| Rooms.Room.Start | pages/api/socketio.ts:152-158 | the room is playing the given objects from index 0 with the given duration; players stay |
| Rooms.Room.SetInterval | pages/api/socketio.ts:169 | only the interval field changes, to the new handle |
| Rooms.Room.Reveal | pages/api/socketio.ts:184-190 | returns the object at the current index and moves the index to (index + 1) mod length; the object judged from then on is the one returned |
| Rooms.Room.Finish | pages/api/socketio.ts:173 | only the phase changes, to results |
| Rooms.Room.React | pages/api/socketio.ts:208-224 | the result is correct exactly when `reacted` equals `canFly` of the object revealed last; the players become `Scoring.Scored` of the old ones; the round fields stay |
| Rooms.Room.Reset | pages/api/socketio.ts:243-257 | waiting, index 0, no interval, every score zeroed by `Roster.ZeroScores`; a room already in that state is left unchanged |
| Rooms.Room.Remove | pages/api/socketio.ts:335-365 | the players and host id become `Roster.Leave` of the old ones, and the reported new host is `Roster.NewHostId`; the round fields stay |
| SocketServer.Server.constructor | pages/api/socketio.ts:8-36 | the 13-object catalog, an empty table, no intervals, no connections, nothing emitted; both invariants hold |
| SocketServer.Server.KeepsSound | pages/api/socketio.ts:8-19 | the player invariant of the table survives any change to one room that leaves that room sound, with ids never sharing a record |
| SocketServer.Server.SameMembersKeepSound | pages/api/socketio.ts:152-200 | the player invariant survives a change to a room's round fields only |
| SocketServer.Server.JoinKeepsSound | pages/api/socketio.ts:94-127 | the player invariant survives a join to an existing room |
| SocketServer.Server.CreateKeepsSound | pages/api/socketio.ts:82-127 | the player invariant survives a join that created its room |
| SocketServer.Server.ReactionKeepsSound | pages/api/socketio.ts:214-224 | the player invariant survives a scored reaction |
| SocketServer.Server.ResetKeepsSound | pages/api/socketio.ts:248-251 | the player invariant survives a reset |
| SocketServer.Server.LeaveKeepsSound | pages/api/socketio.ts:339-365 | the player invariant survives a leave: a room left empty is gone from the table, and the departed id is no longer in the room |
| SocketServer.Server.JoinRoom | pages/api/socketio.ts:66-138 | binds the connection; creates the room when its id is unknown; its players become `Roster.Join` of the old ones; emits `roomJoined` (with `hostId == playerId`) to the joiner and `playerJoined` to the rest of the room; keeps both invariants |
| SocketServer.Server.JoinExisting | pages/api/socketio.ts:94-138 | the join on a room in the table: other rooms, intervals and the table unchanged |
| SocketServer.Server.JoinCreated | pages/api/socketio.ts:82-138 | the join on a new id: a fresh room is added under it holding the joiner alone |
| SocketServer.Server.CreateRoom | pages/api/socketio.ts:82-92 | adds a fresh record under the new id, with `hostId` the joiner's |
| SocketServer.Server.AddPlayer | pages/api/socketio.ts:94-138 | applies `Roster.Join` to the room and emits the two join events |
| SocketServer.Server.StartGame | pages/api/socketio.ts:148-169 | an unknown room id changes nothing; otherwise the room is playing min(duration \|\| 10, 13) objects drawn from the catalog without repetition, from index 0; `gameStarted` is emitted; a new interval with a fresh handle is installed and recorded on the room; an interval already running is left running |
| SocketServer.Server.Tick | pages/api/socketio.ts:169-200 | a cleared interval does nothing; a tick with no round time left clears the room's latest interval, shows results and emits `gameEnded`; otherwise one tenth comes off both counters, and when the window runs out the object at the index is emitted and the index moves on; `updateTimeLeft` is emitted |
| SocketServer.Server.EndRound | pages/api/socketio.ts:170-178 | the end-of-round tick: the room's latest interval cleared, results, `gameEnded` |
| SocketServer.Server.CountDown | pages/api/socketio.ts:180-199 | a counting tick, with or without a reveal |
| SocketServer.Server.RevealTick | pages/api/socketio.ts:182-199 | a counting tick that reveals the object at the index and moves the index on |
| SocketServer.Server.QuietTick | pages/api/socketio.ts:180-199 | a counting tick inside the window: only `updateTimeLeft` |
| SocketServer.Server.PlayerReaction | pages/api/socketio.ts:204-235 | no change unless the room exists and is playing; otherwise the reacting player is scored against the object revealed last, and `reactionResult` and `updateScores` go to the whole room, even for an unknown player id |
| SocketServer.Server.ResetGame | pages/api/socketio.ts:239-262 | an unknown room id changes nothing; otherwise the room is waiting at index 0 with every score 0, its latest interval is cleared and `gameReset` is broadcast; a room already reset is left unchanged |
| SocketServer.Server.ResetRoom | pages/api/socketio.ts:243-262 | the reset of a room in the table |
| SocketServer.Server.RestartLeavesFirstInterval | pages/api/socketio.ts:148-257 | after `startGame` twice and `resetGame`, the room is waiting with no interval recorded, the second interval is cleared, and the first is still installed on the room |
| SocketServer.Server.LeaveRoom | pages/api/socketio.ts:303-378 | no change when the connection has no binding, an empty id, no such room or no such player; otherwise the player at its `findIndex` position is removed as `Roster.Leave` says; afterwards leaving again on the same connection finds nothing to remove |
| SocketServer.Server.RemovePlayer | pages/api/socketio.ts:335-378 | the last player's leave deletes the room and clears its latest interval with no broadcast; any other leave sends `playerLeft` with the remaining players, the new host if any, and the departed id and name, to the room without the leaving connection, which `socket.leave` has just taken out |
| SocketServer.Server.DropRoom | pages/api/socketio.ts:348-354 | the room's latest interval is cleared and its id removed from the table |
| GameStore.Store.constructor | lib/store.ts:16-20 | the initial values: waiting, no players, not host, no current player |
| GameStore.Store.SetGameState | lib/store.ts:21 | replaces the phase and nothing else; the stored ids stay unique |
| GameStore.Store.SetPlayers | lib/store.ts:22-34 | stores the de-duplicated list: unique ids, the input's ids, one entry per id, each the last input entry for its id; nothing else changes |
| GameStore.Store.SetIsHost | lib/store.ts:35 | replaces the host flag and nothing else; the stored ids stay unique |
| GameStore.Store.SetCurrentPlayer | lib/store.ts:36 | records the local player and nothing else; the stored ids stay unique |
| GameStore.Store.ResetGame | lib/store.ts:37-42 | every field back to its initial value |

## Left out

- The Socket.IO transport, the Next.js handler wrapper, CORS and ping settings, and the Redis fan-out adapter: emits are records appended to `outbox`, each with its recipients.
- `socket.join` and `socket.leave`: room membership is only visible as the recipients of an emit. Only the emit that follows in the same handler shows `socket.leave`: `playerLeft` goes to the room without the leaving connection. Later whole-room emits are labelled with the room id only, so they do not show that a connection which left is no longer reached.
- Console logging, the unused per-connection `playerSockets` map, and the 500 ms `setTimeout` that logs the socket count after a leave.
- Real-time scheduling: an interval is an entry of `timers` that fires when `Tick` is called with its handle, and `clearInterval` removes the entry. Interleavings between handlers are not modelled, because each handler runs to completion.
- Floating-point countdowns: the counters are integers in tenths of a second, so `Round.RoundTerminates` states the reveal count of the integer clock only. In double-precision arithmetic the source behaves differently. After five subtractions of 0.1 from 0.5 the object countdown is still slightly above 0, so every object window lasts six ticks instead of five. The round countdown can also stay slightly above 0 after 10·D subtractions, which adds one tick. A 10-second round therefore makes 101 ticks and reveals 16 objects, not 20, and a 5-second round reveals 8, not 10. This drift is not modelled. The payloads carry the same integer units. `newObject.timeToReact` is 5 (tenths) where the source sends `0.5` seconds. `updateTimeLeft.gameTimeLeft` is in tenths where the source sends `timeRemaining` in seconds. `updateTimeLeft.timeLeft` is in milliseconds, as in the source.
- The `Math.random` shuffle: `StartGame` takes the shuffled catalog as a parameter that must be a permutation of the catalog.
- Durations that are negative or fractional: `duration` is a `nat`, and only `duration || 10` for 0 is modelled.
- `Date.now()`: the `playerLeft` timestamp is the parameter `now`.
- JavaScript object-key behaviour, in the de-duplicating fold and in the `rooms` table. Ids are plain strings, the fold keeps them in first-insertion order, and a room id is in the table only once a join has created it. In the source, integer-like player ids reorder in the fold and a player id `__proto__` misbehaves. A room id that names an `Object.prototype` member (`constructor`, `toString`, `__proto__`, ...) is different too. The home page lets a user type such an id. `rooms[roomId]` is then truthy before any join, so `joinRoom` creates no room and throws at `players.findIndex`. `startGame` and `resetGame` also find a "room" for it. The model treats such an id as an ordinary unknown one: `JoinRoom` creates the room and emits `roomJoined`.
- The `error` event of `joinRoom`: the handler emits it when it throws, as it does for the room ids above. The model has no such fault, so it never emits `error`.
- The client's use of the store: rendering, local storage and sound.

