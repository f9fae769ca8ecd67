/**
 * The client-side game store of lib/store.ts: four fields replaced by setters, and a
 * reset back to the initial values.
 */
module GameStore {
  import opened Types
  import opened Players

  class Store {
    var gameState: GameState
    var players: seq<Player>
    var isHost: bool
    var currentPlayer: Option<Player>

    /** The values the store starts with and `resetGame` restores. */
    ghost predicate Initial()
      reads this
    {
      gameState == Waiting && players == [] && !isHost && currentPlayer == None
    }

    /** The stored players never repeat an id. */
    ghost predicate Valid()
      reads this
    {
      NoDupIds(players)
    }

    constructor ()
      ensures Valid() && Initial()
    {
      gameState := Waiting;
      players := [];
      isHost := false;
      currentPlayer := None;
    }

    /** `setGameState`: replaces the phase and nothing else. */
    method SetGameState(state: GameState)
      requires Valid()
      modifies this
      ensures Valid()
      ensures gameState == state
      ensures players == old(players) && isHost == old(isHost) && currentPlayer == old(currentPlayer)
    {
      gameState := state;
    }

    /**
     * `setPlayers`: stores the list with one entry per id, in order of first
     * appearance, each entry the last one given for its id.
     */
    method SetPlayers(ps: seq<Player>)
      modifies this
      ensures Valid()
      ensures players == Dedup(ps)
      ensures Ids(players) == Ids(ps) && |players| == |Ids(ps)|
      ensures forall j :: 0 <= j < |players| ==> players[j] == LastWith(ps, players[j].id)
      ensures gameState == old(gameState) && isHost == old(isHost) && currentPlayer == old(currentPlayer)
    {
      DedupDistinct(ps);
      DedupLastWins(ps);
      players := Dedup(ps);
    }

    /** `setIsHost`: replaces the host flag and nothing else. */
    method SetIsHost(isHost: bool)
      requires Valid()
      modifies this
      ensures Valid()
      ensures this.isHost == isHost
      ensures gameState == old(gameState) && players == old(players) && currentPlayer == old(currentPlayer)
    {
      this.isHost := isHost;
    }

    /** `setCurrentPlayer`: records the local player and nothing else. */
    method SetCurrentPlayer(player: Player)
      requires Valid()
      modifies this
      ensures Valid()
      ensures currentPlayer == Some(player)
      ensures gameState == old(gameState) && players == old(players) && isHost == old(isHost)
    {
      currentPlayer := Some(player);
    }

    /** `resetGame`: every field back to its initial value. */
    method ResetGame()
      modifies this
      ensures Valid() && Initial()
    {
      gameState := Waiting;
      players := [];
      isHost := false;
      currentPlayer := None;
    }
  }
}
