/**
 * The reaction handler's rule: which object a reaction is judged against, whether
 * the reaction is correct, and how the reacting player's score changes.
 */
module Scoring {
  import opened Types
  import opened Players
  import Roster

  /** Points for a correct reaction and the penalty for a wrong one. */
  const Reward: int := 10
  const Penalty: int := 5

  /**
   * The object in play: the one revealed last, at `(index === 0 ? len : index) - 1`,
   * since each reveal has already moved the index past the object it showed.
   */
  function JudgedIndex(index: nat, len: nat): (r: nat)
    requires index < len
    ensures r < len
  {
    (if index == 0 then len else index) - 1
  }

  /** The judged object is the one just before the current index, wrapping round. */
  lemma JudgedPrecedes(index: nat, len: nat)
    requires index < len
    ensures (JudgedIndex(index, len) + 1) % len == index
  {
    if index == 0 {
      assert JudgedIndex(index, len) + 1 == len;
    } else {
      assert JudgedIndex(index, len) + 1 == index;
    }
  }

  /** The object judged right after a reveal is the object that reveal showed. */
  lemma JudgedAfterReveal(i: nat, len: nat)
    requires i < len
    ensures JudgedIndex((i + 1) % len, len) == i
  {
    if i + 1 == len {
      assert (i + 1) % len == 0;
    } else {
      assert (i + 1) % len == i + 1;
    }
  }

  /**
   * `(reacted && canFly) || (!reacted && !canFly)`: raising a hand claims the object
   * can fly, not raising it claims it cannot.
   */
  function IsCorrect(reacted: bool, canFly: bool): (r: bool)
    ensures r <==> reacted == canFly
  {
    (reacted && canFly) || (!reacted && !canFly)
  }

  /** `score += 10` when correct; otherwise `score -= 5`, then raised back to 0 if negative. */
  function NewScore(score: int, correct: bool): (r: int)
    ensures score >= 0 ==> r >= 0
    ensures correct ==> r == score + Reward
    ensures !correct && score >= Penalty ==> r == score - Penalty
    ensures !correct && score < Penalty ==> r == 0
  {
    if correct then score + Reward
    else if score - Penalty < 0 then 0
    else score - Penalty
  }

  /** The score update on the player list: only the first entry carrying `id` changes. */
  function Scored(ps: seq<Player>, id: string, correct: bool): (q: seq<Player>)
    ensures |q| == |ps|
    ensures id !in Ids(ps) ==> q == ps
  {
    var i := IndexOfId(ps, id);
    if i == -1 then ps else ps[i := ps[i].(score := NewScore(ps[i].score, correct))]
  }

  /**
   * On a valid room, scoring changes the score of the player with `id` by the rule and
   * nothing else; an unknown id changes nothing. The room stays valid.
   */
  lemma ScoredEffect(r: Roster.Roster, id: string, correct: bool)
    requires Roster.Valid(r)
    ensures |Scored(r.players, id, correct)| == |r.players|
    ensures forall i :: 0 <= i < |r.players| ==>
      Scored(r.players, id, correct)[i] ==
        (if r.players[i].id == id
         then r.players[i].(score := NewScore(r.players[i].score, correct))
         else r.players[i])
    ensures id !in Ids(r.players) ==> Scored(r.players, id, correct) == r.players
    ensures Roster.Valid(Roster.Roster(Scored(r.players, id, correct), r.hostId))
  {
    var q := Scored(r.players, id, correct);
    var k := IndexOfId(r.players, id);
    if k >= 0 {
      forall x | x in Ids(q) ensures x in Ids(r.players) {
        var j :| 0 <= j < |q| && q[j].id == x;
        assert r.players[j].id == x;
      }
      forall x | x in Ids(r.players) ensures x in Ids(q) {
        var j :| 0 <= j < |r.players| && r.players[j].id == x;
        assert q[j].id == x;
      }
    }
  }
}
