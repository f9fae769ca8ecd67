/**
 * Player lists keyed by id: the `findIndex` lookup used by every handler and
 * the de-duplicating fold `Object.values(players.reduce((acc, p) => { acc[p.id] = p; ... }, {}))`
 * shared by the join handler and the client store.
 *
 * The fold writes each player into a dictionary keyed by id. A key written for the
 * first time is appended; a key written again keeps its position and takes the new
 * value. So the result lists each id once, in order of first occurrence, carrying the
 * last entry with that id.
 */
module Players {
  import opened Types

  /** The ids occurring in a list. */
  function Ids(ps: seq<Player>): set<string>
  {
    set i | 0 <= i < |ps| :: ps[i].id
  }

  /** No id occurs twice. */
  predicate NoDupIds(ps: seq<Player>)
  {
    forall i, j :: 0 <= i < j < |ps| ==> ps[i].id != ps[j].id
  }

  /** `ps.findIndex(p => p.id === id)`: the first position carrying `id`, or -1. */
  function IndexOfId(ps: seq<Player>, id: string): (r: int)
    ensures -1 <= r < |ps|
    ensures r == -1 <==> id !in Ids(ps)
    ensures r >= 0 ==> ps[r].id == id && forall i :: 0 <= i < r ==> ps[i].id != id
  {
    if |ps| == 0 then -1
    else if ps[0].id == id then 0
    else
      var k := IndexOfId(ps[1..], id);
      assert Ids(ps) == Ids(ps[1..]) + {ps[0].id} by {
        forall x | x in Ids(ps) ensures x in Ids(ps[1..]) + {ps[0].id} {
          var i :| 0 <= i < |ps| && ps[i].id == x;
          if i > 0 { assert ps[1..][i - 1].id == x; }
        }
      }
      if k == -1 then -1 else k + 1
  }

  /** One step of the fold: `acc[p.id] = p` on a dictionary that keeps insertion order. */
  function Upsert(acc: seq<Player>, p: Player): (r: seq<Player>)
    ensures p in r
    ensures |acc| <= |r| <= |acc| + 1
    ensures forall x :: x in r ==> x in acc || x == p
  {
    var i := IndexOfId(acc, p.id);
    if i == -1 then acc + [p] else assert acc[i := p][i] == p; acc[i := p]
  }

  /** The whole fold, from the left over `ps`, starting from the empty dictionary. */
  function Dedup(ps: seq<Player>): (r: seq<Player>)
    ensures |r| <= |ps|
    ensures forall x :: x in r ==> x in ps
  {
    if |ps| == 0 then [] else Upsert(Dedup(ps[..|ps| - 1]), ps[|ps| - 1])
  }

  /** Reference definition: the last entry of `ps` that carries `id`. */
  function LastWith(ps: seq<Player>, id: string): (p: Player)
    requires id in Ids(ps)
    ensures p.id == id && p in ps
    ensures exists k :: 0 <= k < |ps| && ps[k] == p && forall j :: k < j < |ps| ==> ps[j].id != id
  {
    var n := |ps| - 1;
    if ps[n].id == id then ps[n]
    else
      assert id in Ids(ps[..n]) by {
        var i :| 0 <= i < |ps| && ps[i].id == id;
        assert ps[..n][i].id == id;
      }
      LastWith(ps[..n], id)
  }

  lemma IdsSnoc(ps: seq<Player>, p: Player)
    ensures Ids(ps + [p]) == Ids(ps) + {p.id}
  {
    var q := ps + [p];
    forall x | x in Ids(q) ensures x in Ids(ps) + {p.id} {
      var i :| 0 <= i < |q| && q[i].id == x;
      if i < |ps| { assert ps[i].id == x; }
    }
    forall x | x in Ids(ps) ensures x in Ids(q) {
      var i :| 0 <= i < |ps| && ps[i].id == x;
      assert q[i].id == x;
    }
    assert q[|ps|].id == p.id;
  }

  lemma IdsPrefix(ps: seq<Player>)
    requires |ps| > 0
    ensures Ids(ps) == Ids(ps[..|ps| - 1]) + {ps[|ps| - 1].id}
  {
    assert ps == ps[..|ps| - 1] + [ps[|ps| - 1]];
    IdsSnoc(ps[..|ps| - 1], ps[|ps| - 1]);
  }

  /** Writing an existing key keeps the id set; writing a new one adds it. */
  lemma UpsertIds(acc: seq<Player>, p: Player)
    ensures Ids(Upsert(acc, p)) == Ids(acc) + {p.id}
  {
    var i := IndexOfId(acc, p.id);
    if i == -1 {
      IdsSnoc(acc, p);
    } else {
      var r := acc[i := p];
      forall x | x in Ids(r) ensures x in Ids(acc) {
        var j :| 0 <= j < |r| && r[j].id == x;
        assert acc[j].id == x;
      }
      forall x | x in Ids(acc) ensures x in Ids(r) {
        var j :| 0 <= j < |acc| && acc[j].id == x;
        assert r[j].id == x;
      }
    }
  }

  lemma UpsertNoDup(acc: seq<Player>, p: Player)
    requires NoDupIds(acc)
    ensures NoDupIds(Upsert(acc, p))
  {
    var i := IndexOfId(acc, p.id);
    if i == -1 {
      var r := acc + [p];
      forall a, b | 0 <= a < b < |r| ensures r[a].id != r[b].id {
        if b == |acc| { assert acc[a].id in Ids(acc); }
      }
    }
  }

  /** A list without repeated ids has as many entries as ids. */
  lemma {:induction false} NoDupCard(ps: seq<Player>)
    requires NoDupIds(ps)
    ensures |Ids(ps)| == |ps|
  {
    if |ps| > 0 {
      var n := |ps| - 1;
      NoDupCard(ps[..n]);
      IdsPrefix(ps);
    }
  }

  /** The fold never produces a repeated id. */
  lemma {:induction false} DedupNoDup(ps: seq<Player>)
    ensures NoDupIds(Dedup(ps))
  {
    if |ps| > 0 {
      DedupNoDup(ps[..|ps| - 1]);
      UpsertNoDup(Dedup(ps[..|ps| - 1]), ps[|ps| - 1]);
    }
  }

  /** The fold keeps exactly the ids of its input. */
  lemma {:induction false} DedupIds(ps: seq<Player>)
    ensures Ids(Dedup(ps)) == Ids(ps)
  {
    if |ps| > 0 {
      DedupIds(ps[..|ps| - 1]);
      UpsertIds(Dedup(ps[..|ps| - 1]), ps[|ps| - 1]);
      IdsPrefix(ps);
    }
  }

  /** The stored list has no repeated id, and one entry per distinct input id. */
  lemma DedupDistinct(ps: seq<Player>)
    ensures NoDupIds(Dedup(ps))
    ensures Ids(Dedup(ps)) == Ids(ps)
    ensures |Dedup(ps)| == |Ids(ps)|
  {
    DedupNoDup(ps);
    DedupIds(ps);
    NoDupCard(Dedup(ps));
  }

  /** Last write wins: every stored entry is the last input entry with its id. */
  lemma {:induction false} DedupLastWins(ps: seq<Player>)
    ensures forall j :: 0 <= j < |Dedup(ps)| ==>
      Dedup(ps)[j].id in Ids(ps) && Dedup(ps)[j] == LastWith(ps, Dedup(ps)[j].id)
  {
    if |ps| > 0 {
      var n := |ps| - 1;
      var front := ps[..n];
      var acc := Dedup(front);
      var p := ps[n];
      DedupLastWins(front);
      DedupIds(front);
      IdsPrefix(ps);
      var r := Dedup(ps);
      assert r == Upsert(acc, p);
      forall j | 0 <= j < |r|
        ensures r[j].id in Ids(ps) && r[j] == LastWith(ps, r[j].id)
      {
        var i := IndexOfId(acc, p.id);
        if r[j].id == p.id {
          if i == -1 {
            assert j == |acc|;
          } else {
            assert j == i by {
              DedupNoDup(front);
            }
          }
          assert r[j] == p;
        } else {
          assert j < |acc| && r[j] == acc[j];
          assert r[j].id in Ids(front) by { assert acc[j].id in Ids(acc); }
        }
      }
    }
  }

  /** For each input id, the entry found under that id is the last input entry with it. */
  lemma DedupLookup(ps: seq<Player>, id: string)
    requires id in Ids(ps)
    ensures IndexOfId(Dedup(ps), id) >= 0
    ensures Dedup(ps)[IndexOfId(Dedup(ps), id)] == LastWith(ps, id)
  {
    DedupIds(ps);
    DedupLastWins(ps);
  }

  /** On a list without repeated ids the fold changes nothing. */
  lemma {:induction false} DedupIdentity(ps: seq<Player>)
    requires NoDupIds(ps)
    ensures Dedup(ps) == ps
  {
    if |ps| > 0 {
      var n := |ps| - 1;
      DedupIdentity(ps[..n]);
      assert ps[n].id !in Ids(ps[..n]);
      assert ps == ps[..n] + [ps[n]];
    }
  }

  /** Feeding the stored list back in stores the same list. */
  lemma DedupIdempotent(ps: seq<Player>)
    ensures Dedup(Dedup(ps)) == Dedup(ps)
  {
    DedupNoDup(ps);
    DedupIdentity(Dedup(ps));
  }
}
