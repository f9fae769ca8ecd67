/**
 * A room record of the `rooms` table of pages/api/socketio.ts. The handlers change
 * its fields in place; each change a handler makes is a method here, proved to
 * perform the matching function of module Roster or Scoring on the players and to
 * keep the room's invariant.
 */
module Rooms {
  import opened Types
  import opened Players
  import Roster
  import Scoring
  import Catalog

  /** A room's round fields: everything but its players and its host id. */
  datatype Game = Game(state: GameState, objects: seq<GameObject>, index: nat,
                       interval: Option<nat>, duration: nat)

  /** The object index stays inside the round's objects, and a round in play has objects. */
  predicate GameOk(g: Game)
  {
    && (if |g.objects| == 0 then g.index == 0 else g.index < |g.objects|)
    && (g.state == Playing ==> |g.objects| > 0)
  }

  /** The object a reaction is judged against: the one revealed last. */
  function JudgedObject(g: Game): GameObject
    requires GameOk(g) && |g.objects| > 0
  {
    g.objects[Scoring.JudgedIndex(g.index, |g.objects|)]
  }

  class Room {
    var players: seq<Player>
    var gameState: GameState
    var hostId: string
    var gameObjects: seq<GameObject>
    var currentObjectIndex: nat
    var gameInterval: Option<nat>
    var gameDuration: nat

    ghost function Members(): Roster.Roster
      reads this
    {
      Roster.Roster(players, hostId)
    }

    ghost function State(): Game
      reads this
    {
      Game(gameState, gameObjects, currentObjectIndex, gameInterval, gameDuration)
    }

    /** The object index is inside the round's objects, and a round in play has objects. */
    ghost predicate Valid()
      reads this
    {
      GameOk(State())
    }

    /** The state `resetGame` leaves behind. */
    ghost predicate IsReset()
      reads this
    {
      gameState == Waiting && currentObjectIndex == 0 && gameInterval == None &&
      Roster.AllZero(players)
    }

    /** The record `joinRoom` creates for an unknown room id. */
    constructor (hostId: string)
      ensures Valid()
      ensures Members() == Roster.Fresh(hostId)
      ensures State() == Game(Waiting, [], 0, None, Catalog.DefaultDuration)
    {
      players := [];
      gameState := Waiting;
      this.hostId := hostId;
      gameObjects := [];
      currentObjectIndex := 0;
      gameInterval := None;
      gameDuration := Catalog.DefaultDuration;
    }

    /**
     * `joinRoom` once the room exists: rename a player already present or append a
     * new one, then replace the list with its de-duplicated copy.
     */
    method Join(playerId: string, playerName: string)
      requires Valid()
      modifies this
      ensures Valid()
      ensures Members() == Roster.Join(old(Members()), playerId, playerName)
      ensures State() == old(State())
    {
      var existing := IndexOfId(players, playerId);
      if existing >= 0 {
        players := players[existing := players[existing].(name := playerName)];
      } else {
        var isHost := |players| == 0 || hostId == playerId;
        if isHost {
          hostId := playerId;
        }
        players := players + [Player(playerId, playerName, 0, isHost)];
      }
      players := Dedup(players);
    }

    /** The fields `startGame` sets before it emits: the round is in play from index 0. */
    method Start(duration: nat, objects: seq<GameObject>)
      requires Valid() && |objects| > 0
      modifies this
      ensures Valid()
      ensures Members() == old(Members())
      ensures State() == Game(Playing, objects, 0, old(gameInterval), duration)
    {
      gameState := Playing;
      gameDuration := duration;
      gameObjects := objects;
      currentObjectIndex := 0;
    }

    /** `room.gameInterval = setInterval(...)`. */
    method SetInterval(handle: nat)
      requires Valid()
      modifies this
      ensures Valid()
      ensures Members() == old(Members())
      ensures State() == old(State()).(interval := Some(handle))
    {
      gameInterval := Some(handle);
    }

    /**
     * A tick whose object window ran out: show the object at the current index and
     * move the index on, wrapping round. The object a reaction is judged against
     * from now on is the one shown.
     */
    method Reveal() returns (shown: GameObject)
      requires Valid() && |gameObjects| > 0
      modifies this
      ensures Valid()
      ensures Members() == old(Members())
      ensures shown == old(gameObjects[currentObjectIndex])
      ensures State() == old(State()).(index := (old(currentObjectIndex) + 1) % |old(gameObjects)|)
      ensures JudgedObject(State()) == shown
    {
      shown := gameObjects[currentObjectIndex];
      Scoring.JudgedAfterReveal(currentObjectIndex, |gameObjects|);
      currentObjectIndex := (currentObjectIndex + 1) % |gameObjects|;
    }

    /** The tick that finds no round time left: the round shows its results. */
    method Finish()
      requires Valid()
      modifies this
      ensures Valid()
      ensures Members() == old(Members())
      ensures State() == old(State()).(state := Results)
    {
      gameState := Results;
    }

    /**
     * `playerReaction` on a room in play: judge the reaction against the object
     * revealed last and apply the score rule to the reacting player, if present.
     */
    method React(playerId: string, reacted: bool) returns (correct: bool)
      requires Valid() && gameState == Playing
      modifies this
      ensures Valid()
      ensures correct <==> reacted == JudgedObject(old(State())).canFly
      ensures Members() == old(Members()).(players := Scoring.Scored(old(players), playerId, correct))
      ensures State() == old(State())
    {
      var current := gameObjects[Scoring.JudgedIndex(currentObjectIndex, |gameObjects|)];
      correct := Scoring.IsCorrect(reacted, current.canFly);
      players := Scoring.Scored(players, playerId, correct);
    }

    /**
     * `resetGame` on the room: back to waiting at index 0, every score 0, the
     * interval field cleared. Resetting a room already reset changes nothing.
     */
    method Reset()
      requires Valid()
      modifies this
      ensures Valid() && IsReset()
      ensures Members() == old(Members()).(players := Roster.ZeroScores(old(players)))
      ensures State() == old(State()).(state := Waiting, index := 0, interval := None)
      ensures old(IsReset()) ==> unchanged(this)
    {
      if IsReset() {
        Roster.ZeroScoresFixed(players);
      }
      gameState := Waiting;
      currentObjectIndex := 0;
      players := Roster.ZeroScores(players);
      gameInterval := None;
    }

    /**
     * `handlePlayerLeaving` on the room: remove the player at `i`; when players
     * remain and the host left, the first remaining player becomes host and is
     * reported as the new host.
     */
    method Remove(i: nat) returns (newHostId: Option<string>)
      requires Valid() && i < |players|
      modifies this
      ensures Valid()
      ensures Members() == Roster.Leave(old(Members()), i)
      ensures newHostId == Roster.NewHostId(old(Members()), i)
      ensures State() == old(State())
    {
      var wasHost := players[i].isHost;
      players := Roster.RemoveAt(players, i);
      newHostId := None;
      if |players| == 0 {
        return;
      }
      if wasHost {
        players := players[0 := players[0].(isHost := true)];
        newHostId := Some(players[0].id);
        hostId := players[0].id;
      }
    }
  }
}
