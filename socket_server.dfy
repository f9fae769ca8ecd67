/**
 * The room/session server of pages/api/socketio.ts: the module-level `rooms` table,
 * the intervals that `startGame` installs, each connection's `socket.data`, and the
 * handlers `joinRoom`, `startGame` (with its interval body as `Tick`),
 * `playerReaction`, `resetGame` and `handlePlayerLeaving` (which serves both
 * `leaveRoom` and `disconnecting`).
 *
 * Emits are recorded in `outbox`, each with its recipients: the sending connection
 * (`socket.emit`), the room without the sender (`socket.to(roomId)`) or the whole
 * room (`io.to(roomId)`).
 */
module SocketServer {
  import opened Types
  import opened Players
  import Roster
  import Scoring
  import Catalog
  import Round
  import opened Rooms

  /** What `socket.data` holds once the connection has joined. */
  datatype Binding = Binding(playerId: string, roomId: string, playerName: string)

  /**
   * The outbound events. Times are integers: `timeToReact` and `gameTimeLeft` in
   * tenths of a second, `timeLeft` in milliseconds.
   */
  datatype Event =
    | RoomJoined(players: seq<Player>, isHost: bool)
    | PlayerJoined(players: seq<Player>)
    | PlayerLeft(players: seq<Player>, newHostId: Option<string>, leftPlayerId: string,
                 leftPlayerName: string, timestamp: int)
    | GameStarted(duration: nat)
    | NewObject(gameObject: GameObject, timeToReact: int)
    | UpdateTimeLeft(timeLeft: int, gameTimeLeft: int)
    | ReactionResult(playerId: string, correct: bool)
    | UpdateScores(players: seq<Player>)
    | GameEnded(players: seq<Player>)
    | GameReset(players: seq<Player>)

  datatype Recipient =
    | Sender(conn: string)
    | RoomExceptSender(roomId: string, conn: string)
    | WholeRoom(roomId: string)

  datatype Emission = Emission(to: Recipient, event: Event)

  /** The handles an interval field names: none for `null`. */
  function Handles(interval: Option<nat>): set<nat>
  {
    if interval.Some? then {interval.value} else {}
  }

  /**
   * A live interval: the room object its closure captured, the id it emits to, and
   * its two countdowns (`timeRemaining`, `objectTimeRemaining`).
   */
  datatype Countdown = Countdown(room: Room, roomId: string, clock: Round.Clock)


  class Server {
    /** The module-level `gameObjects` table every round draws from. */
    const catalog: seq<GameObject>
    /** The `rooms` table. */
    var rooms: map<string, Room>
    /** The intervals not yet cleared, by handle. */
    var timers: map<nat, Countdown>
    /** The handle the next `setInterval` returns. */
    var nextTimer: nat
    /** `socket.data` of every connection that has joined. */
    var sockets: map<string, Binding>
    /** Everything emitted so far, in order. */
    var outbox: seq<Emission>

    /** Every room record ever created: the table's and those live intervals still hold. */
    ghost var Repr: set<Room>

    /**
     * The catalog has its 13 objects, every room in the table is valid, and every live
     * interval has a handle already issued and drives a valid room that has objects
     * to reveal.
     */
    ghost predicate Valid()
      reads this, Repr
    {
      && |catalog| == 13
      && (forall k :: k in rooms ==> rooms[k] in Repr && rooms[k].Valid())
      && (forall h :: h in timers ==>
            h < nextTimer && timers[h].room in Repr && timers[h].room.Valid() &&
            |timers[h].room.gameObjects| > 0)
    }

    /**
     * The invariant survives a handler that changed one existing room record and no
     * other, dropped entries of the table, dropped intervals or started new ones on
     * that room.
     */
    twostate lemma KeepsValid(room: Room)
      requires old(Valid())
      requires room in old(Repr) && Repr == old(Repr) && old(nextTimer) <= nextTimer
      requires room.Valid()
      requires old(|room.gameObjects|) > 0 ==> |room.gameObjects| > 0
      requires forall r :: r in Repr && r != room ==> unchanged(r)
      requires forall k :: k in rooms ==> k in old(rooms) && rooms[k] == old(rooms[k])
      requires forall h :: h in timers ==>
        || (h in old(timers) && timers[h].room == old(timers[h]).room)
        || (h < nextTimer && timers[h].room == room && |room.gameObjects| > 0)
      ensures Valid()
    {
    }

    /** The invariant survives adding a new valid room record under a new id. */
    twostate lemma AddsRoom(new room: Room, roomId: string)
      requires old(Valid())
      requires room !in old(Repr) && Repr == old(Repr) + {room} && room.Valid()
      requires roomId !in old(rooms) && rooms == old(rooms)[roomId := room]
      requires timers == old(timers) && nextTimer == old(nextTimer)
      requires forall r :: r in old(Repr) ==> unchanged(r)
      ensures Valid()
    {
    }

    /**
     * The player invariants hold in every room of the table: unique ids, no negative
     * score, exactly one host whose id is `hostId`. A room is in the table only while
     * it has players, and no two ids share a room record.
     */
    ghost predicate Sound()
      reads this, rooms.Values
    {
      && (forall k :: k in rooms ==> Roster.Valid(rooms[k].Members()) && |rooms[k].players| > 0)
      && (forall k, k' :: k in rooms && k' in rooms && rooms[k] == rooms[k'] ==> k == k')
    }

    /**
     * `Sound` survives a handler that changed at most one room record, left it with
     * players that keep the invariants if it is still in the table, and added or
     * dropped ids of the table without sharing records.
     */
    twostate lemma KeepsSound(new room: Room)
      requires old(Sound())
      requires forall k :: k in rooms ==> rooms[k] == room || (k in old(rooms) && rooms[k] == old(rooms[k]))
      requires forall k :: k in old(rooms) && old(rooms[k]) != room ==> unchanged(old(rooms[k]))
      requires forall k, k' :: k in rooms && k' in rooms && rooms[k] == rooms[k'] ==> k == k'
      requires forall k :: k in rooms && rooms[k] == room ==>
        Roster.Valid(room.Members()) && |room.players| > 0
      ensures Sound()
    {
    }

    /** `Sound` survives a handler that changed one room's round fields but not its players. */
    twostate lemma SameMembersKeepSound(room: Room)
      requires old(Sound()) && rooms == old(rooms)
      requires forall k :: k in rooms && rooms[k] != room ==> unchanged(rooms[k])
      requires room.Members() == old(room.Members())
      ensures Sound()
    {
      KeepsSound(room);
    }

    // In the lemmas below, `new` also marks parameters of plain value types (strings,
    // booleans, numbers). For values it changes nothing, since a value needs no
    // allocation in the old state. It is there because it keeps Dafny 4.11 from
    // emitting a malformed proof obligation at calls with several such parameters.

    /** `Sound` survives a join to a room in the table: the room keeps the invariants. */
    twostate lemma JoinKeepsSound(room: Room, new roomId: string, new id: string, new name: string)
      requires old(Sound()) && rooms == old(rooms) && roomId in rooms && rooms[roomId] == room
      requires forall k :: k in rooms && rooms[k] != room ==> unchanged(rooms[k])
      requires room.Members() == Roster.Join(old(room.Members()), id, name)
      ensures Sound()
    {
      Roster.JoinValid(old(room.Members()), id, name);
      KeepsSound(room);
    }

    /**
     * `Sound` survives a join that created its room: the new record holds the joiner
     * alone and is shared with no other id.
     */
    twostate lemma CreateKeepsSound(new room: Room, new roomId: string, new id: string, new name: string)
      requires old(Sound()) && roomId !in old(rooms) && rooms == old(rooms)[roomId := room]
      requires forall k :: k in old(rooms) ==> old(rooms[k]) != room && unchanged(old(rooms[k]))
      requires room.Members() == Roster.Join(Roster.Fresh(id), id, name)
      ensures Sound()
    {
      Roster.JoinFreshValid(id, name);
      KeepsSound(room);
    }

    /** `Sound` survives a scored reaction: the score rule keeps the invariants and the count. */
    twostate lemma ReactionKeepsSound(room: Room, new roomId: string, new id: string, new correct: bool)
      requires old(Sound()) && rooms == old(rooms) && roomId in rooms && rooms[roomId] == room
      requires forall k :: k in rooms && rooms[k] != room ==> unchanged(rooms[k])
      requires room.Members() == old(room.Members()).(players := Scoring.Scored(old(room.players), id, correct))
      ensures Sound()
    {
      Scoring.ScoredEffect(old(room.Members()), id, correct);
      KeepsSound(room);
    }

    /** `Sound` survives a reset: zeroing the scores keeps the invariants and the count. */
    twostate lemma ResetKeepsSound(room: Room, new roomId: string)
      requires old(Sound()) && rooms == old(rooms) && roomId in rooms && rooms[roomId] == room
      requires forall k :: k in rooms && rooms[k] != room ==> unchanged(rooms[k])
      requires room.Members() == old(room.Members()).(players := Roster.ZeroScores(old(room.players)))
      ensures Sound()
    {
      Roster.ResetValid(old(room.Members()));
      KeepsSound(room);
    }

    /**
     * `Sound` survives a leave: a room left with players keeps the invariants, and a
     * room left empty is no longer in the table.
     */
    twostate lemma LeaveKeepsSound(room: Room, new roomId: string, new i: nat)
      requires old(Sound()) && roomId in old(rooms) && old(rooms[roomId]) == room
      requires old(i < |room.players|)
      requires forall k :: k in old(rooms) && old(rooms[k]) != room ==> unchanged(old(rooms[k]))
      requires room.Members() == Roster.Leave(old(room.Members()), i)
      requires old(|room.players|) == 1 ==> rooms == old(rooms) - {roomId}
      requires old(|room.players|) > 1 ==> rooms == old(rooms)
      ensures Sound()
      ensures roomId in rooms ==> rooms[roomId] == room && old(room.players[i].id) !in Ids(room.players)
    {
      if old(|room.players|) > 1 {
        Roster.LeaveValid(old(room.Members()), i);
      }
      KeepsSound(room);
    }

    /**
     * Leaving with this connection's binding finds nothing to remove: no binding, an
     * empty id, no such room, or no such player in it.
     */
    ghost predicate LeaveIsNoop(conn: string)
      reads this, rooms.Values
    {
      || conn !in sockets
      || sockets[conn].playerId == ""
      || sockets[conn].roomId == ""
      || sockets[conn].roomId !in rooms
      || IndexOfId(rooms[sockets[conn].roomId].players, sockets[conn].playerId) == -1
    }

    /** A server with the 13-object catalog, no rooms, no intervals and no connections. */
    constructor ()
      ensures Valid() && Sound()
      ensures catalog == Catalog.Objects
      ensures rooms == map[] && timers == map[] && sockets == map[] && outbox == []
    {
      catalog := Catalog.Objects;
      rooms := map[];
      timers := map[];
      nextTimer := 0;
      sockets := map[];
      outbox := [];
      Repr := {};
    }

    /** `joinRoom`: bind the connection, create the room if needed, add or rename the player. */
    method JoinRoom(conn: string, roomId: string, playerId: string, playerName: string)
      requires Valid() && Sound()
      modifies this, if roomId in rooms then {rooms[roomId]} else {}
      ensures Valid() && Sound()
      ensures sockets == old(sockets)[conn := Binding(playerId, roomId, playerName)]
      ensures timers == old(timers) && nextTimer == old(nextTimer)
      ensures roomId in rooms
      ensures roomId !in old(rooms) ==>
        && rooms == old(rooms)[roomId := rooms[roomId]]
        && fresh(rooms[roomId])
        && rooms[roomId].Members() == Roster.Join(Roster.Fresh(playerId), playerId, playerName)
        && rooms[roomId].State() == Game(Waiting, [], 0, None, Catalog.DefaultDuration)
      ensures roomId in old(rooms) ==>
        && rooms == old(rooms)
        && rooms[roomId].Members() == Roster.Join(old(rooms[roomId].Members()), playerId, playerName)
        && rooms[roomId].State() == old(rooms[roomId].State())
      ensures outbox == old(outbox) + [
        Emission(Sender(conn), RoomJoined(rooms[roomId].players, rooms[roomId].hostId == playerId)),
        Emission(RoomExceptSender(roomId, conn), PlayerJoined(rooms[roomId].players))]
    {
      sockets := sockets[conn := Binding(playerId, roomId, playerName)];
      if roomId in rooms {
        JoinExisting(conn, roomId, playerId, playerName);
      } else {
        JoinCreated(conn, roomId, playerId, playerName);
      }
    }

    /** `joinRoom` for a room id in the table. */
    method JoinExisting(conn: string, roomId: string, playerId: string, playerName: string)
      requires Valid() && Sound() && roomId in rooms
      modifies this, rooms[roomId]
      ensures Valid() && Sound()
      ensures sockets == old(sockets) && timers == old(timers) && nextTimer == old(nextTimer)
      ensures rooms == old(rooms)
      ensures rooms[roomId].Members() == Roster.Join(old(rooms[roomId].Members()), playerId, playerName)
      ensures rooms[roomId].State() == old(rooms[roomId].State())
      ensures outbox == old(outbox) + [
        Emission(Sender(conn), RoomJoined(rooms[roomId].players, rooms[roomId].hostId == playerId)),
        Emission(RoomExceptSender(roomId, conn), PlayerJoined(rooms[roomId].players))]
    {
      AddPlayer(conn, roomId, playerId, playerName);
      JoinKeepsSound(rooms[roomId], roomId, playerId, playerName);
    }

    /** `joinRoom` for an unknown room id: create the room, then join it. */
    method JoinCreated(conn: string, roomId: string, playerId: string, playerName: string)
      requires Valid() && Sound() && roomId !in rooms
      modifies this
      ensures Valid() && Sound()
      ensures sockets == old(sockets) && timers == old(timers) && nextTimer == old(nextTimer)
      ensures roomId in rooms && rooms == old(rooms)[roomId := rooms[roomId]]
      ensures fresh(rooms[roomId])
      ensures rooms[roomId].Members() == Roster.Join(Roster.Fresh(playerId), playerId, playerName)
      ensures rooms[roomId].State() == Game(Waiting, [], 0, None, Catalog.DefaultDuration)
      ensures outbox == old(outbox) + [
        Emission(Sender(conn), RoomJoined(rooms[roomId].players, rooms[roomId].hostId == playerId)),
        Emission(RoomExceptSender(roomId, conn), PlayerJoined(rooms[roomId].players))]
    {
      CreateRoom(roomId, playerId);
      var room := rooms[roomId];
      assert forall k :: k in old(rooms) ==> old(rooms[k]) != room;
      AddPlayer(conn, roomId, playerId, playerName);
      assert forall k :: k in old(rooms) ==> unchanged(old(rooms[k]));
      CreateKeepsSound(room, roomId, playerId, playerName);
    }

    /** A new room record under `roomId`, its host id the joiner's. */
    method CreateRoom(roomId: string, hostId: string)
      requires Valid() && roomId !in rooms
      modifies this
      ensures Valid()
      ensures sockets == old(sockets) && timers == old(timers) && nextTimer == old(nextTimer)
      ensures outbox == old(outbox)
      ensures roomId in rooms && rooms == old(rooms)[roomId := rooms[roomId]]
      ensures fresh(rooms[roomId])
      ensures rooms[roomId].Members() == Roster.Fresh(hostId)
      ensures rooms[roomId].State() == Game(Waiting, [], 0, None, Catalog.DefaultDuration)
    {
      var room := new Room(hostId);
      rooms := rooms[roomId := room];
      Repr := Repr + {room};
      AddsRoom(room, roomId);
    }

    /** The part of `joinRoom` after the room exists: add or rename the player, then emit. */
    method AddPlayer(conn: string, roomId: string, playerId: string, playerName: string)
      requires Valid() && roomId in rooms
      modifies this, rooms[roomId]
      ensures Valid()
      ensures sockets == old(sockets) && timers == old(timers) && nextTimer == old(nextTimer)
      ensures rooms == old(rooms)
      ensures rooms[roomId].Members() == Roster.Join(old(rooms[roomId].Members()), playerId, playerName)
      ensures rooms[roomId].State() == old(rooms[roomId].State())
      ensures outbox == old(outbox) + [
        Emission(Sender(conn), RoomJoined(rooms[roomId].players, rooms[roomId].hostId == playerId)),
        Emission(RoomExceptSender(roomId, conn), PlayerJoined(rooms[roomId].players))]
    {
      var room := rooms[roomId];
      room.Join(playerId, playerName);
      KeepsValid(room);
      outbox := outbox + [
        Emission(Sender(conn), RoomJoined(room.players, room.hostId == playerId)),
        Emission(RoomExceptSender(roomId, conn), PlayerJoined(room.players))];
    }

    /**
     * `startGame`: no host check, as in the source. `shuffled` stands for the
     * catalog after `sort(() => Math.random() - 0.5)`. An interval already running
     * for the room is not cleared: it stays in `timers`.
     */
    method StartGame(roomId: string, duration: nat, shuffled: seq<GameObject>)
      requires Valid() && Sound()
      requires multiset(shuffled) == multiset(catalog)
      modifies this, if roomId in rooms then {rooms[roomId]} else {}
      ensures Valid() && Sound()
      ensures rooms == old(rooms) && sockets == old(sockets)
      ensures roomId !in rooms ==>
        timers == old(timers) && nextTimer == old(nextTimer) && outbox == old(outbox)
      ensures roomId in rooms ==>
        var room := rooms[roomId];
        var d := Catalog.RoundDuration(duration);
        && room.Members() == old(room.Members())
        && room.State() == Game(Playing, Catalog.RoundObjects(shuffled, d), 0, Some(old(nextTimer)), d)
        && |room.gameObjects| == Catalog.Min(d, 13)
        && multiset(room.gameObjects) <= multiset(catalog)
        && timers == old(timers)[old(nextTimer) := Countdown(room, roomId, Round.StartClock(d))]
        && nextTimer == old(nextTimer) + 1
        && outbox == old(outbox) + [Emission(WholeRoom(roomId), GameStarted(d))]
    {
      if roomId !in rooms {
        return;
      }
      var room := rooms[roomId];
      var d := Catalog.RoundDuration(duration);
      Catalog.PrefixOfPermutation(shuffled, catalog, d);
      room.Start(d, Catalog.RoundObjects(shuffled, d));
      outbox := outbox + [Emission(WholeRoom(roomId), GameStarted(d))];
      var handle := nextTimer;
      nextTimer := nextTimer + 1;
      timers := timers[handle := Countdown(room, roomId, Round.StartClock(d))];
      room.SetInterval(handle);
      KeepsValid(room);
      SameMembersKeepSound(room);
    }

    /**
     * One firing of the interval with handle `h`; a cleared interval never fires.
     * When the round time is used up the tick clears `room.gameInterval` (the room's
     * latest interval, which is this one unless the room was started again), shows
     * the results and emits `gameEnded`; otherwise it counts down, reveals the object
     * at the current index when the object window runs out, and emits
     * `updateTimeLeft`.
     */
    method Tick(h: nat)
      requires Valid() && Sound()
      modifies this, if h in timers then {timers[h].room} else {}
      ensures Valid() && Sound()
      ensures rooms == old(rooms) && sockets == old(sockets) && nextTimer == old(nextTimer)
      ensures h !in old(timers) ==> timers == old(timers) && outbox == old(outbox)
      ensures h in old(timers) && Round.Over(old(timers[h]).clock) ==>
        var t := old(timers[h]);
        && t.room.Members() == old(t.room.Members())
        && t.room.State() == old(t.room.State()).(state := Results)
        && timers == old(timers) - Handles(old(t.room.gameInterval))
        && outbox == old(outbox) + [Emission(WholeRoom(t.roomId), GameEnded(t.room.players))]
      ensures h in old(timers) && !Round.Over(old(timers[h]).clock) ==>
        var t := old(timers[h]);
        var g := old(t.room.State());
        var next := Round.Step(t.clock);
        var update := Emission(WholeRoom(t.roomId), UpdateTimeLeft(next.objectLeft * 100, t.clock.roundLeft));
        && t.room.Members() == old(t.room.Members())
        && timers == old(timers)[h := t.(clock := next)]
        && (Round.Reveals(t.clock) ==>
              && g.index < |g.objects|
              && t.room.State() == g.(index := (g.index + 1) % |g.objects|)
              && outbox == old(outbox) + [
                   Emission(WholeRoom(t.roomId), NewObject(g.objects[g.index], Round.ObjectWindow)),
                   update])
        && (!Round.Reveals(t.clock) ==> t.room.State() == g && outbox == old(outbox) + [update])
    {
      if h !in timers {
        return;
      }
      var room := timers[h].room;
      if Round.Over(timers[h].clock) {
        EndRound(h);
      } else {
        CountDown(h);
      }
      SameMembersKeepSound(room);
    }

    /** The tick of interval `h` that finds the round time used up. */
    method EndRound(h: nat)
      requires Valid() && h in timers && Round.Over(timers[h].clock)
      modifies this, timers[h].room
      ensures Valid()
      ensures rooms == old(rooms) && sockets == old(sockets) && nextTimer == old(nextTimer)
      ensures var t := old(timers[h]);
        && t.room.Members() == old(t.room.Members())
        && t.room.State() == old(t.room.State()).(state := Results)
        && timers == old(timers) - Handles(old(t.room.gameInterval))
        && outbox == old(outbox) + [Emission(WholeRoom(t.roomId), GameEnded(t.room.players))]
    {
      var t := timers[h];
      var room := t.room;
      if room.gameInterval.Some? {
        timers := timers - {room.gameInterval.value};
      }
      room.Finish();
      outbox := outbox + [Emission(WholeRoom(t.roomId), GameEnded(room.players))];
      KeepsValid(room);
    }

    /**
     * The tick of interval `h` while the round has time left: one tenth off both
     * countdowns, with a reveal when the object window runs out.
     */
    method CountDown(h: nat)
      requires Valid() && h in timers && !Round.Over(timers[h].clock)
      modifies this, timers[h].room
      ensures Valid()
      ensures rooms == old(rooms) && sockets == old(sockets) && nextTimer == old(nextTimer)
      ensures var t := old(timers[h]);
        var g := old(t.room.State());
        var next := Round.Step(t.clock);
        var update := Emission(WholeRoom(t.roomId), UpdateTimeLeft(next.objectLeft * 100, t.clock.roundLeft));
        && t.room.Members() == old(t.room.Members())
        && timers == old(timers)[h := t.(clock := next)]
        && (Round.Reveals(t.clock) ==>
              && g.index < |g.objects|
              && t.room.State() == g.(index := (g.index + 1) % |g.objects|)
              && outbox == old(outbox) + [
                   Emission(WholeRoom(t.roomId), NewObject(g.objects[g.index], Round.ObjectWindow)),
                   update])
        && (!Round.Reveals(t.clock) ==> t.room.State() == g && outbox == old(outbox) + [update])
    {
      if Round.Reveals(timers[h].clock) {
        RevealTick(h);
      } else {
        QuietTick(h);
      }
    }

    /** A counting tick whose object window runs out: reveal, then report the time left. */
    method RevealTick(h: nat)
      requires Valid() && h in timers && !Round.Over(timers[h].clock) && Round.Reveals(timers[h].clock)
      modifies this, timers[h].room
      ensures Valid()
      ensures rooms == old(rooms) && sockets == old(sockets) && nextTimer == old(nextTimer)
      ensures var t := old(timers[h]);
        var g := old(t.room.State());
        && g.index < |g.objects|
        && t.room.Members() == old(t.room.Members())
        && t.room.State() == g.(index := (g.index + 1) % |g.objects|)
        && timers == old(timers)[h := t.(clock := Round.Step(t.clock))]
        && outbox == old(outbox) + [
             Emission(WholeRoom(t.roomId), NewObject(g.objects[g.index], Round.ObjectWindow)),
             Emission(WholeRoom(t.roomId), UpdateTimeLeft(Round.ObjectWindow * 100, t.clock.roundLeft))]
    {
      var t := timers[h];
      var room := t.room;
      var shown := room.Reveal();
      outbox := outbox + [
        Emission(WholeRoom(t.roomId), NewObject(shown, Round.ObjectWindow)),
        Emission(WholeRoom(t.roomId), UpdateTimeLeft(Round.ObjectWindow * 100, t.clock.roundLeft))];
      timers := timers[h := t.(clock := Round.Step(t.clock))];
      KeepsValid(room);
    }

    /** A counting tick inside the object window: only report the time left. */
    method QuietTick(h: nat)
      requires Valid() && h in timers && !Round.Over(timers[h].clock) && !Round.Reveals(timers[h].clock)
      modifies this
      ensures Valid()
      ensures rooms == old(rooms) && sockets == old(sockets) && nextTimer == old(nextTimer)
      ensures var t := old(timers[h]);
        && timers == old(timers)[h := t.(clock := Round.Step(t.clock))]
        && outbox == old(outbox) + [
             Emission(WholeRoom(t.roomId), UpdateTimeLeft((t.clock.objectLeft - 1) * 100, t.clock.roundLeft))]
    {
      var t := timers[h];
      var objectLeft := t.clock.objectLeft - 1;
      outbox := outbox + [Emission(WholeRoom(t.roomId), UpdateTimeLeft(objectLeft * 100, t.clock.roundLeft))];
      timers := timers[h := t.(clock := Round.Step(t.clock))];
      KeepsValid(t.room);
    }

    /**
     * `playerReaction`: judged against the object revealed last. Ignored unless the
     * room exists and is in play; an unknown player id changes no score but both
     * broadcasts still go out.
     */
    method PlayerReaction(roomId: string, playerId: string, reacted: bool)
      requires Valid() && Sound()
      modifies this, if roomId in rooms then {rooms[roomId]} else {}
      ensures Valid() && Sound()
      ensures rooms == old(rooms) && timers == old(timers) && sockets == old(sockets)
      ensures nextTimer == old(nextTimer)
      ensures roomId !in rooms || old(rooms[roomId].gameState) != Playing ==>
        outbox == old(outbox) && (roomId in rooms ==> unchanged(rooms[roomId]))
      ensures roomId in rooms && old(rooms[roomId].gameState) == Playing ==>
        var room := rooms[roomId];
        var correct := Scoring.IsCorrect(reacted, JudgedObject(old(room.State())).canFly);
        && room.Members() == old(room.Members()).(players := Scoring.Scored(old(room.players), playerId, correct))
        && room.State() == old(room.State())
        && outbox == old(outbox) + [
             Emission(WholeRoom(roomId), ReactionResult(playerId, correct)),
             Emission(WholeRoom(roomId), UpdateScores(room.players))]
    {
      if roomId !in rooms || rooms[roomId].gameState != Playing {
        return;
      }
      var room := rooms[roomId];
      var correct := room.React(playerId, reacted);
      KeepsValid(room);
      ReactionKeepsSound(room, roomId, playerId, correct);
      outbox := outbox + [
        Emission(WholeRoom(roomId), ReactionResult(playerId, correct)),
        Emission(WholeRoom(roomId), UpdateScores(room.players))];
    }

    /**
     * `resetGame`: no host check, as in the source. Clears the room's latest
     * interval; a room already in the reset state is left as it was.
     */
    method ResetGame(roomId: string)
      requires Valid() && Sound()
      modifies this, if roomId in rooms then {rooms[roomId]} else {}
      ensures Valid() && Sound()
      ensures rooms == old(rooms) && sockets == old(sockets) && nextTimer == old(nextTimer)
      ensures roomId !in rooms ==> timers == old(timers) && outbox == old(outbox)
      ensures roomId in rooms ==> WasReset(rooms[roomId], roomId)
    {
      if roomId !in rooms {
        return;
      }
      var room := rooms[roomId];
      ResetRoom(room, roomId);
      ResetKeepsSound(room, roomId);
    }

    /**
     * What `resetGame` did to `room`: every score 0, back to waiting at index 0 with
     * no interval, the room's latest interval cleared and `gameReset` broadcast. A
     * room that was already reset is left exactly as it was.
     */
    twostate predicate WasReset(room: Room, roomId: string)
      reads this, room
    {
      && room.Members() == old(room.Members()).(players := Roster.ZeroScores(old(room.players)))
      && room.State() == old(room.State()).(state := Waiting, index := 0, interval := None)
      && timers == old(timers) - Handles(old(room.gameInterval))
      && outbox == old(outbox) + [Emission(WholeRoom(roomId), GameReset(room.players))]
      && (old(room.IsReset()) ==> unchanged(room))
    }

    /** `resetGame` on a room that exists. */
    method ResetRoom(room: Room, roomId: string)
      requires Valid() && roomId in rooms && rooms[roomId] == room
      modifies this, room
      ensures Valid()
      ensures rooms == old(rooms) && sockets == old(sockets) && nextTimer == old(nextTimer)
      ensures WasReset(room, roomId)
    {
      var interval := room.gameInterval;
      room.Reset();
      if interval.Some? {
        timers := timers - {interval.value};
      }
      KeepsValid(room);
      outbox := outbox + [Emission(WholeRoom(roomId), GameReset(room.players))];
    }

    /**
     * `startGame` twice on one room, then `resetGame`. The second start does not
     * clear the first interval, and the reset clears only the room's latest interval
     * (the second). The first interval stays installed on the room after the reset
     * and goes on firing. The same happens when the first round ends: its end tick
     * clears `room.gameInterval`, which is the second interval, and not itself.
     */
    method RestartLeavesFirstInterval(roomId: string, d1: nat, s1: seq<GameObject>,
                                      d2: nat, s2: seq<GameObject>)
      returns (first: nat, second: nat)
      requires Valid() && Sound() && roomId in rooms
      requires multiset(s1) == multiset(catalog) && multiset(s2) == multiset(catalog)
      modifies this, rooms[roomId]
      ensures Valid() && Sound() && rooms == old(rooms)
      ensures first != second && second !in timers
      ensures first in timers && timers[first].room == rooms[roomId]
      ensures rooms[roomId].gameState == Waiting && rooms[roomId].gameInterval == None
    {
      var room := rooms[roomId];
      first := nextTimer;
      StartGame(roomId, d1, s1);
      assert first in timers && timers[first].room == room;
      second := nextTimer;
      StartGame(roomId, d2, s2);
      assert room.gameInterval == Some(second) && first in timers && timers[first].room == room;
      ResetGame(roomId);
    }

    /**
     * `handlePlayerLeaving`, run by `leaveRoom` and by `disconnecting`. The binding
     * is kept, but once the player is gone a second call on the same connection
     * finds nothing to remove: afterwards `LeaveIsNoop(conn)` holds, and from such a
     * state the call changes nothing.
     */
    method LeaveRoom(conn: string, now: int)
      requires Valid() && Sound()
      modifies this, if conn in sockets && sockets[conn].roomId in rooms
                     then {rooms[sockets[conn].roomId]} else {}
      ensures Valid() && Sound()
      ensures sockets == old(sockets) && nextTimer == old(nextTimer)
      ensures LeaveIsNoop(conn)
      ensures old(LeaveIsNoop(conn)) ==>
        && rooms == old(rooms) && timers == old(timers) && outbox == old(outbox)
        && (conn in sockets && sockets[conn].roomId in rooms ==> unchanged(rooms[sockets[conn].roomId]))
      ensures !old(LeaveIsNoop(conn)) ==>
        var b := sockets[conn];
        var room := old(rooms[b.roomId]);
        var i := IndexOfId(old(room.players), b.playerId);
        0 <= i && Removed(room, conn, b, i, now)
    {
      if conn !in sockets {
        return;
      }
      var b := sockets[conn];
      if b.playerId == "" || b.roomId == "" {
        return;
      }
      if b.roomId !in rooms {
        return;
      }
      var playerIndex := IndexOfId(rooms[b.roomId].players, b.playerId);
      if playerIndex == -1 {
        return;
      }
      var room := rooms[b.roomId];
      RemovePlayer(conn, b, playerIndex, now);
      LeaveKeepsSound(room, b.roomId, playerIndex);
    }

    /**
     * What removing the player at `i` from `room`, bound as `b`, did: the room's
     * members are those of `Roster.Leave` and its round fields are untouched. The
     * last player's leave deletes the room and clears its latest interval, with no
     * broadcast. Any other leave sends `playerLeft`, with the new host if any, to the
     * room without the leaving connection `conn`, which has just left the room.
     */
    twostate predicate Removed(room: Room, conn: string, b: Binding, i: nat, now: int)
      requires old(i < |room.players|)
      reads this, room
    {
      var before := old(room.Members());
      && room.Members() == Roster.Leave(before, i)
      && room.State() == old(room.State())
      && (|before.players| == 1 ==>
            && rooms == old(rooms) - {b.roomId}
            && timers == old(timers) - Handles(old(room.gameInterval))
            && outbox == old(outbox))
      && (|before.players| > 1 ==>
            && rooms == old(rooms)
            && timers == old(timers)
            && outbox == old(outbox) + [Emission(RoomExceptSender(b.roomId, conn),
                 PlayerLeft(room.players, Roster.NewHostId(before, i), b.playerId, b.playerName, now))])
    }

    /** The part of `handlePlayerLeaving` after the player was found at index `i`. */
    method RemovePlayer(conn: string, b: Binding, i: nat, now: int)
      requires Valid() && b.roomId in rooms && i < |rooms[b.roomId].players|
      modifies this, rooms[b.roomId]
      ensures Valid()
      ensures sockets == old(sockets) && nextTimer == old(nextTimer)
      ensures Removed(old(rooms[b.roomId]), conn, b, i, now)
    {
      var room := rooms[b.roomId];
      var newHostId := room.Remove(i);
      KeepsValid(room);
      if |room.players| == 0 {
        DropRoom(b.roomId);
        return;
      }
      // `socket.leave(roomId)` comes first, so the leaving connection is not reached.
      outbox := outbox + [Emission(RoomExceptSender(b.roomId, conn),
        PlayerLeft(room.players, newHostId, b.playerId, b.playerName, now))];
    }

    /** Delete an emptied room from the table, clearing its latest interval. */
    method DropRoom(roomId: string)
      requires Valid() && roomId in rooms
      modifies this
      ensures Valid()
      ensures rooms == old(rooms) - {roomId}
      ensures timers == old(timers) - Handles(old(rooms[roomId].gameInterval))
      ensures sockets == old(sockets) && nextTimer == old(nextTimer) && outbox == old(outbox)
    {
      var room := rooms[roomId];
      if room.gameInterval.Some? {
        timers := timers - {room.gameInterval.value};
      }
      rooms := rooms - {roomId};
      KeepsValid(room);
    }
  }
}
