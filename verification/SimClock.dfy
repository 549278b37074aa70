/** The simulated clock: it starts at `start` and moves on by `incr` a tick. */
module SimClock {

  function TimeOf(start: int, incr: nat, tick: nat): int { start + tick * incr }

  lemma StartTime(start: int, incr: nat)
    ensures TimeOf(start, incr, 0) == start
  {
  }

  lemma NextTime(start: int, incr: nat, tick: nat)
    ensures TimeOf(start, incr, tick + 1) == TimeOf(start, incr, tick) + incr
  {
  }

  lemma {:induction false} TimeMonotone(start: int, incr: nat, a: nat, b: nat)
    requires a <= b
    ensures TimeOf(start, incr, a) <= TimeOf(start, incr, b)
    decreases b - a
  {
    if a < b {
      NextTime(start, incr, b - 1);
      TimeMonotone(start, incr, a, b - 1);
    }
  }
}
