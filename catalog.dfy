/**
 * The static object catalog of pages/api/socketio.ts and the way a round picks its
 * objects from it: the catalog shuffled, then cut to the round's duration.
 * The shuffle itself (`sort(() => Math.random() - 0.5)`) is not modelled; the round
 * takes the shuffled catalog as an input that must be a permutation of the catalog.
 */
module Catalog {
  import opened Types

  /** The thirteen objects, in the order of the source table. */
  const Objects: seq<GameObject> := [
    GameObject("Bird", "/images/bird.png", true),
    GameObject("Airplane", "/images/airplane.png", true),
    GameObject("Butterfly", "/images/butterfly.png", true),
    GameObject("Bee", "/images/bee.png", true),
    GameObject("Helicopter", "/images/helicopter.png", true),
    GameObject("Rocket", "/images/rocket.png", true),
    GameObject("Bat", "/images/bat.png", true),
    GameObject("Dog", "/images/dog.png", false),
    GameObject("Cat", "/images/cat.png", false),
    GameObject("Car", "/images/car.png", false),
    GameObject("Fish", "/images/fish.png", false),
    GameObject("Elephant", "/images/elephant.png", false),
    GameObject("Penguin", "/images/penguin.png", false)
  ]

  /** The round length used when the request carries none (or 0): `duration || 10`. */
  const DefaultDuration: nat := 10

  /** `s` is some ordering of the whole catalog. */
  ghost predicate IsShuffle(s: seq<GameObject>)
  {
    multiset(s) == multiset(Objects)
  }

  function Min(a: nat, b: nat): nat
  {
    if a <= b then a else b
  }

  /** `room.gameDuration = duration || 10`. */
  function RoundDuration(duration: nat): (d: nat)
    ensures d > 0
    ensures duration > 0 ==> d == duration
    ensures duration == 0 ==> d == DefaultDuration
  {
    if duration == 0 then DefaultDuration else duration
  }

  /** `shuffled.slice(0, d)`: at most `d` objects, fewer when the catalog is shorter. */
  function RoundObjects(shuffled: seq<GameObject>, d: nat): (r: seq<GameObject>)
    ensures |r| == Min(d, |shuffled|)
    ensures forall j :: 0 <= j < |r| ==> r[j] == shuffled[j]
  {
    shuffled[..Min(d, |shuffled|)]
  }

  /** A prefix of a permutation of `catalog` is drawn from `catalog` without repetition. */
  lemma PrefixOfPermutation(shuffled: seq<GameObject>, catalog: seq<GameObject>, n: nat)
    requires multiset(shuffled) == multiset(catalog)
    ensures |shuffled[..Min(n, |shuffled|)]| == Min(n, |catalog|)
    ensures multiset(shuffled[..Min(n, |shuffled|)]) <= multiset(catalog)
  {
    assert |shuffled| == |multiset(shuffled)|;
    assert |catalog| == |multiset(catalog)|;
    var k := Min(n, |shuffled|);
    assert shuffled == shuffled[..k] + shuffled[k..];
  }

  /**
   * The objects of a round are a prefix of a permutation of the catalog, so they are
   * drawn from it without repetition, and there are min(duration || 10, 13) of them,
   * never none.
   */
  lemma RoundObjectsFromCatalog(shuffled: seq<GameObject>, duration: nat)
    requires IsShuffle(shuffled)
    ensures |RoundObjects(shuffled, RoundDuration(duration))| == Min(RoundDuration(duration), 13)
    ensures |RoundObjects(shuffled, RoundDuration(duration))| > 0
    ensures multiset(RoundObjects(shuffled, RoundDuration(duration))) <= multiset(Objects)
  {
    PrefixOfPermutation(shuffled, Objects, RoundDuration(duration));
  }
}
