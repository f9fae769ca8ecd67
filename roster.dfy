/**
 * A room's membership, as the join, leave and reset handlers of
 * pages/api/socketio.ts change it: the ordered player list and the host id.
 * Each handler's effect on these two fields is a function here; the handlers in
 * module SocketServer are proved to perform exactly that function.
 */
module Roster {
  import opened Types
  import opened Players

  /** The membership part of a room record: `players` and `hostId`. */
  datatype Roster = Roster(players: seq<Player>, hostId: string)

  predicate ScoresOk(ps: seq<Player>)
  {
    forall i :: 0 <= i < |ps| ==> ps[i].score >= 0
  }

  /**
   * In a non-empty room the host id belongs to a player, and a player carries the
   * host flag exactly when its id is the host id.
   */
  predicate HostOk(ps: seq<Player>, hostId: string)
  {
    |ps| > 0 ==>
      && hostId in Ids(ps)
      && forall i :: 0 <= i < |ps| ==> (ps[i].isHost <==> ps[i].id == hostId)
  }

  /** The room invariants about players: unique ids, scores never negative, one host. */
  predicate Valid(r: Roster)
  {
    NoDupIds(r.players) && ScoresOk(r.players) && HostOk(r.players, r.hostId)
  }

  /** Under the invariant a non-empty room has exactly one host, and its id is `hostId`. */
  lemma ExactlyOneHost(r: Roster)
    requires Valid(r) && |r.players| > 0
    ensures exists i :: 0 <= i < |r.players| && r.players[i].isHost && r.players[i].id == r.hostId
    ensures forall i, j ::
      0 <= i < |r.players| && 0 <= j < |r.players| && r.players[i].isHost && r.players[j].isHost ==> i == j
  {
    var i :| 0 <= i < |r.players| && r.players[i].id == r.hostId;
    assert r.players[i].isHost;
  }

  /**
   * The join handler on the room's players (after the room exists): rename a player
   * already present, or append a new one who is host when the room was empty or its
   * host id is theirs; then the de-duplicating fold.
   */
  function Join(r: Roster, id: string, name: string): (q: Roster)
    ensures |q.players| <= |r.players| + 1
    ensures q.hostId == r.hostId || q.hostId == id
  {
    var i := IndexOfId(r.players, id);
    if i >= 0 then
      Roster(Dedup(r.players[i := r.players[i].(name := name)]), r.hostId)
    else
      var isHost := |r.players| == 0 || r.hostId == id;
      Roster(Dedup(r.players + [Player(id, name, 0, isHost)]), if isHost then id else r.hostId)
  }

  /** Renaming the entry at `i` leaves every entry with another id one of the old entries. */
  lemma RenameFrom(ps: seq<Player>, i: nat, name: string)
    requires i < |ps|
    ensures forall p :: p in ps[i := ps[i].(name := name)] && p.id != ps[i].id ==> p in ps
  {
    var q := ps[i := ps[i].(name := name)];
    forall p | p in q && p.id != ps[i].id ensures p in ps {
      var j :| 0 <= j < |q| && q[j] == p;
      assert ps[j] == p;
    }
  }

  /** A join touches only the joiner's entry: every entry with another id is an old entry. */
  lemma JoinKeepsOthers(r: Roster, id: string, name: string)
    ensures forall p :: p in Join(r, id, name).players && p.id != id ==> p in r.players
  {
    var i := IndexOfId(r.players, id);
    if i >= 0 {
      RenameFrom(r.players, i, name);
    }
  }

  /** A room the join handler has just created: no players, its host id the joiner's. */
  function Fresh(id: string): (q: Roster)
    ensures |q.players| == 0 && q.hostId == id
  {
    Roster([], id)
  }

  /** The first join of a room leaves the joiner as its only player, host, with score 0. */
  lemma JoinFresh(id: string, name: string)
    ensures Join(Fresh(id), id, name) == Roster([Player(id, name, 0, true)], id)
  {
    assert Dedup([Player(id, name, 0, true)]) == [Player(id, name, 0, true)] by {
      DedupIdentity([Player(id, name, 0, true)]);
    }
  }

  /** The room a first join creates keeps the invariants and is not empty. */
  lemma JoinFreshValid(id: string, name: string)
    ensures Valid(Join(Fresh(id), id, name)) && |Join(Fresh(id), id, name).players| == 1
  {
    assert Valid(Fresh(id));
    JoinValid(Fresh(id), id, name);
    JoinFresh(id, name);
  }

  lemma RenameKeeps(ps: seq<Player>, i: nat, name: string)
    requires i < |ps|
    ensures Ids(ps[i := ps[i].(name := name)]) == Ids(ps)
  {
    var q := ps[i := ps[i].(name := name)];
    forall x | x in Ids(q) ensures x in Ids(ps) {
      var j :| 0 <= j < |q| && q[j].id == x;
      assert ps[j].id == x;
    }
    forall x | x in Ids(ps) ensures x in Ids(q) {
      var j :| 0 <= j < |ps| && ps[j].id == x;
      assert q[j].id == x;
    }
  }

  /**
   * Rejoining with an id already in the room changes only that player's name: the
   * number of players, their order, ids, scores and host flags, and the host id stay.
   */
  lemma Rejoin(r: Roster, id: string, name: string)
    requires Valid(r) && id in Ids(r.players)
    ensures |Join(r, id, name).players| == |r.players|
    ensures Join(r, id, name).hostId == r.hostId
    ensures forall i :: 0 <= i < |r.players| ==>
      Join(r, id, name).players[i] ==
        (if r.players[i].id == id then r.players[i].(name := name) else r.players[i])
  {
    var i := IndexOfId(r.players, id);
    var q := r.players[i := r.players[i].(name := name)];
    assert NoDupIds(q);
    DedupIdentity(q);
  }

  /**
   * A join with a new id appends one player with score 0, who is host exactly when
   * the room was empty (on a valid room the host id is always a present player's).
   */
  lemma JoinNew(r: Roster, id: string, name: string)
    requires Valid(r) && id !in Ids(r.players)
    ensures Join(r, id, name).players == r.players + [Player(id, name, 0, |r.players| == 0)]
    ensures Join(r, id, name).hostId == if |r.players| == 0 then id else r.hostId
  {
    var isHost := |r.players| == 0 || r.hostId == id;
    assert isHost == (|r.players| == 0);
    var q := r.players + [Player(id, name, 0, isHost)];
    IdsSnoc(r.players, Player(id, name, 0, isHost));
    assert NoDupIds(q) by {
      forall a, b | 0 <= a < b < |q| ensures q[a].id != q[b].id {
        if b == |r.players| { assert r.players[a].id in Ids(r.players); }
      }
    }
    DedupIdentity(q);
  }

  /** Whatever the room held before, a join leaves unique ids, the joiner's among them. */
  lemma JoinIds(r: Roster, id: string, name: string)
    ensures NoDupIds(Join(r, id, name).players)
    ensures Ids(Join(r, id, name).players) == Ids(r.players) + {id}
  {
    var i := IndexOfId(r.players, id);
    var q;
    if i >= 0 {
      q := r.players[i := r.players[i].(name := name)];
      RenameKeeps(r.players, i, name);
    } else {
      q := r.players + [Player(id, name, 0, |r.players| == 0 || r.hostId == id)];
      IdsSnoc(r.players, q[|r.players|]);
    }
    DedupNoDup(q);
    DedupIds(q);
  }

  /** A rejoin keeps the invariants; the joiner's host flag is set exactly when the host id is theirs. */
  lemma RejoinValid(r: Roster, id: string, name: string)
    requires Valid(r) && id in Ids(r.players)
    ensures Valid(Join(r, id, name))
    ensures var r' := Join(r, id, name);
      var k := IndexOfId(r'.players, id);
      k >= 0 && (r'.players[k].isHost <==> r'.hostId == id)
  {
    Rejoin(r, id, name);
    JoinIds(r, id, name);
    var r' := Join(r, id, name);
    SameFlagsValid(r, r'.players);
    var k := IndexOfId(r'.players, id);
    assert r'.players[k].isHost == r.players[k].isHost;
  }

  /** A list with the same ids, scores and host flags as a valid room's is valid with its host id. */
  lemma SameFlagsValid(r: Roster, q: seq<Player>)
    requires Valid(r) && |q| == |r.players|
    requires forall i :: 0 <= i < |q| ==> q[i].(name := r.players[i].name) == r.players[i]
    ensures Valid(Roster(q, r.hostId))
  {
    assert forall i :: 0 <= i < |q| ==>
      q[i].id == r.players[i].id && q[i].score == r.players[i].score && q[i].isHost == r.players[i].isHost;
    if |q| > 0 {
      var j :| 0 <= j < |r.players| && r.players[j].id == r.hostId;
      assert q[j].id == r.hostId;
    }
  }

  /** A first join keeps the invariants; the joiner is host exactly when the room was empty. */
  lemma JoinNewValid(r: Roster, id: string, name: string)
    requires Valid(r) && id !in Ids(r.players)
    ensures Valid(Join(r, id, name))
    ensures var r' := Join(r, id, name);
      var k := IndexOfId(r'.players, id);
      k >= 0 && (r'.players[k].isHost <==> r'.hostId == id)
  {
    JoinNew(r, id, name);
    var p := Player(id, name, 0, |r.players| == 0);
    AppendValid(r, p);
    var r' := Join(r, id, name);
    assert r'.players[|r.players|] == p;
  }

  /** Appending a new id with score 0, host exactly when the room was empty, keeps the invariants. */
  lemma AppendValid(r: Roster, p: Player)
    requires Valid(r) && p.id !in Ids(r.players) && p.score == 0 && p.isHost == (|r.players| == 0)
    ensures Valid(Roster(r.players + [p], if |r.players| == 0 then p.id else r.hostId))
  {
    var q := r.players + [p];
    IdsSnoc(r.players, p);
    assert NoDupIds(q) by {
      forall a, b | 0 <= a < b < |q| ensures q[a].id != q[b].id {
        if b == |r.players| { assert r.players[a].id in Ids(r.players); }
      }
    }
    if |r.players| > 0 {
      assert p.id != r.hostId;
    }
  }


  /**
   * Every join keeps the invariants, leaves the joiner in the room, and reports the
   * joiner as host (`roomJoined.isHost`, `hostId === playerId`) exactly when the
   * joiner's own entry carries the host flag.
   */
  lemma JoinValid(r: Roster, id: string, name: string)
    requires Valid(r)
    ensures Valid(Join(r, id, name))
    ensures Ids(Join(r, id, name).players) == Ids(r.players) + {id}
    ensures var r' := Join(r, id, name);
      var k := IndexOfId(r'.players, id);
      k >= 0 && (r'.players[k].isHost <==> r'.hostId == id)
  {
    JoinIds(r, id, name);
    if id in Ids(r.players) {
      RejoinValid(r, id, name);
    } else {
      JoinNewValid(r, id, name);
    }
  }

  /** `players.splice(i, 1)`. */
  function RemoveAt(ps: seq<Player>, i: nat): (q: seq<Player>)
    requires i < |ps|
    ensures |q| == |ps| - 1
    ensures forall j :: 0 <= j < |q| ==> q[j] == (if j < i then ps[j] else ps[j + 1])
  {
    ps[..i] + ps[i + 1..]
  }

  /**
   * The leave handler on a room that keeps players: remove the player at `i`; if it
   * was the host, the first remaining player becomes host and the host id follows.
   */
  function Leave(r: Roster, i: nat): (q: Roster)
    requires i < |r.players|
    ensures |q.players| == |r.players| - 1
    ensures forall j :: 0 <= j < |q.players| ==>
      q.players[j].(isHost := RemoveAt(r.players, i)[j].isHost) == RemoveAt(r.players, i)[j]
    ensures forall j :: 0 < j < |q.players| ==> q.players[j] == RemoveAt(r.players, i)[j]
    ensures q.hostId == r.hostId || (r.players[i].isHost && |q.players| > 0 && q.hostId == q.players[0].id)
  {
    var rest := RemoveAt(r.players, i);
    if r.players[i].isHost && |rest| > 0 then
      Roster(rest[0 := rest[0].(isHost := true)], rest[0].id)
    else
      Roster(rest, r.hostId)
  }

  /** The id of the player reported as new host in `playerLeft`, if any. */
  function NewHostId(r: Roster, i: nat): (h: Option<string>)
    requires i < |r.players|
    ensures h.Some? <==> r.players[i].isHost && |r.players| > 1
    ensures h.Some? ==> h.value == Leave(r, i).hostId == Leave(r, i).players[0].id
  {
    if r.players[i].isHost && |r.players| > 1 then Some(Leave(r, i).hostId) else None
  }

  lemma RemoveAtIds(ps: seq<Player>, i: nat)
    requires i < |ps| && NoDupIds(ps)
    ensures NoDupIds(RemoveAt(ps, i))
    ensures Ids(RemoveAt(ps, i)) == Ids(ps) - {ps[i].id}
  {
    var q := RemoveAt(ps, i);
    forall x | x in Ids(q) ensures x in Ids(ps) - {ps[i].id} {
      var j :| 0 <= j < |q| && q[j].id == x;
      if j < i { assert ps[j].id == x; } else { assert ps[j + 1].id == x; }
    }
    forall x | x in Ids(ps) - {ps[i].id} ensures x in Ids(q) {
      var j :| 0 <= j < |ps| && ps[j].id == x;
      if j < i { assert q[j].id == x; } else { assert q[j - 1].id == x; }
    }
  }

  /**
   * A leave that keeps players in the room keeps the invariants and removes exactly
   * the departing id. When the host left, the earliest remaining player becomes host
   * and the host id names them; otherwise the remaining players are untouched and the
   * host id stays.
   */
  lemma LeaveValid(r: Roster, i: nat)
    requires Valid(r) && i < |r.players| && |r.players| > 1
    ensures Valid(Leave(r, i))
    ensures Ids(Leave(r, i).players) == Ids(r.players) - {r.players[i].id}
    ensures r.players[i].isHost ==>
      var rest := RemoveAt(r.players, i);
      && Leave(r, i).hostId == rest[0].id
      && Leave(r, i).players[0].isHost
      && NewHostId(r, i) == Some(rest[0].id)
    ensures !r.players[i].isHost ==>
      Leave(r, i) == Roster(RemoveAt(r.players, i), r.hostId) && NewHostId(r, i) == None
  {
    var rest := RemoveAt(r.players, i);
    RemoveAtIds(r.players, i);
    if r.players[i].isHost {
      var q := rest[0 := rest[0].(isHost := true)];
      RenameKeepsHost(rest);
      assert forall j :: 1 <= j < |rest| ==> rest[j].id != rest[0].id;
    } else {
      assert r.players[i].id != r.hostId;
      assert r.hostId in Ids(rest);
    }
  }

  lemma RenameKeepsHost(ps: seq<Player>)
    requires |ps| > 0
    ensures Ids(ps[0 := ps[0].(isHost := true)]) == Ids(ps)
  {
    var q := ps[0 := ps[0].(isHost := true)];
    forall x | x in Ids(q) ensures x in Ids(ps) {
      var j :| 0 <= j < |q| && q[j].id == x;
      assert ps[j].id == x;
    }
    forall x | x in Ids(ps) ensures x in Ids(q) {
      var j :| 0 <= j < |ps| && ps[j].id == x;
      assert q[j].id == x;
    }
  }

  /**
   * `players.map(p => ({...p, score: 0}))`: the same players in the same order, each
   * with its id, name and host flag, and no points.
   */
  function ZeroScores(ps: seq<Player>): (q: seq<Player>)
    ensures |q| == |ps| && AllZero(q)
    ensures forall i :: 0 <= i < |ps| ==> q[i].(score := ps[i].score) == ps[i]
  {
    seq(|ps|, i requires 0 <= i < |ps| => ps[i].(score := 0))
  }

  /** No player has any points. */
  predicate AllZero(ps: seq<Player>)
  {
    forall i :: 0 <= i < |ps| ==> ps[i].score == 0
  }

  /** Players who all have no points are left as they are by a reset. */
  lemma ZeroScoresFixed(ps: seq<Player>)
    requires AllZero(ps)
    ensures ZeroScores(ps) == ps
  {
    assert forall i :: 0 <= i < |ps| ==> ZeroScores(ps)[i] == ps[i];
  }

  /** Resetting twice gives the same players as resetting once. */
  lemma ZeroScoresIdempotent(ps: seq<Player>)
    ensures ZeroScores(ZeroScores(ps)) == ZeroScores(ps)
  {
    ZeroScoresFixed(ZeroScores(ps));
  }

  /** Reset keeps the invariants and the player ids. */
  lemma ResetValid(r: Roster)
    requires Valid(r)
    ensures Valid(Roster(ZeroScores(r.players), r.hostId))
    ensures Ids(ZeroScores(r.players)) == Ids(r.players)
  {
    var q := ZeroScores(r.players);
    forall x | x in Ids(q) ensures x in Ids(r.players) {
      var j :| 0 <= j < |q| && q[j].id == x;
      assert r.players[j].id == x;
    }
    forall x | x in Ids(r.players) ensures x in Ids(q) {
      var j :| 0 <= j < |r.players| && r.players[j].id == x;
      assert q[j].id == x;
    }
  }
}
