/**
 * The countdown driven by the 100 ms interval that `startGame` installs.
 * The source counts seconds in floating point (`timeRemaining -= 0.1`,
 * `objectTimeRemaining -= 0.1`); here both counters are integers in tenths of a
 * second, so one tick takes exactly one unit off each.
 */
module Round {

  /** Length of one object window, `0.5` seconds, in tenths. */
  const ObjectWindow: int := 5

  /** Time left in the round and in the current object window, in tenths of a second. */
  datatype Clock = Clock(roundLeft: int, objectLeft: int)

  /** The counters as the interval starts them: the round's duration and one window. */
  function StartClock(duration: nat): Clock
  {
    Clock(10 * duration, ObjectWindow)
  }

  /** The tick that finds no round time left ends the round instead of counting. */
  predicate Over(c: Clock)
  {
    c.roundLeft <= 0
  }

  /** True when this tick's object window runs out, so the tick reveals the next object. */
  function Reveals(c: Clock): bool
  {
    c.objectLeft - 1 <= 0
  }

  /**
   * A tick of a running round: one tenth off the object window (refilled when it
   * runs out, the tick then reveals an object) and one tenth off the round.
   */
  function Step(c: Clock): (n: Clock)
    requires !Over(c)
    ensures n.roundLeft == c.roundLeft - 1
    ensures Reveals(c) ==> n.objectLeft == ObjectWindow
    ensures !Reveals(c) ==> 0 < n.objectLeft < c.objectLeft
  {
    var o := c.objectLeft - 1;
    Clock(c.roundLeft - 1, if o <= 0 then ObjectWindow else o)
  }

  /** The clock after `k` ticks; ticks after the round is over leave it as it is. */
  function Run(c: Clock, k: nat): Clock
  {
    if k == 0 then c
    else
      var p := Run(c, k - 1);
      if Over(p) then p else Step(p)
  }

  /** How many of the first `k` ticks revealed an object. */
  function RevealCount(c: Clock, k: nat): nat
  {
    if k == 0 then 0
    else
      var p := Run(c, k - 1);
      RevealCount(c, k - 1) + (if !Over(p) && Reveals(p) then 1 else 0)
  }

  /** After `k` ticks of a round of `d` seconds (k <= 10 d): the counters and the reveals so far. */
  lemma {:induction false} RunFromStart(d: nat, k: nat)
    requires k <= 10 * d
    ensures Run(StartClock(d), k) == Clock(10 * d - k, ObjectWindow - k % 5)
    ensures RevealCount(StartClock(d), k) == k / 5
  {
    if k > 0 {
      RunFromStart(d, k - 1);
    }
  }

  /**
   * A round of `d` seconds runs exactly 10 d counting ticks, every fifth of which
   * reveals an object (2 d reveals), and the next tick finds it over; so the end of
   * the round always comes.
   */
  lemma RoundTerminates(d: nat)
    ensures forall k :: 0 <= k < 10 * d ==> !Over(Run(StartClock(d), k))
    ensures Over(Run(StartClock(d), 10 * d))
    ensures RevealCount(StartClock(d), 10 * d) == 2 * d
  {
    forall k | 0 <= k < 10 * d ensures !Over(Run(StartClock(d), k)) {
      RunFromStart(d, k);
    }
    RunFromStart(d, 10 * d);
  }
}
