/** Reservations of the trace: on every turn the one at the head of the queue is created if its
    time has come, and no more than that one. */
module SimReservations {
  import opened SimClock

  /** Reservation `k` of `times` may be created on `ticks[k]`: in order, one a tick, none early. */
  predicate Admissible(times: seq<int>, start: int, incr: nat, ticks: seq<nat>)
  {
    && |ticks| <= |times|
    && (forall k :: 0 <= k < |ticks| ==> times[k] <= TimeOf(start, incr, ticks[k]))
    && (forall i, j :: 0 <= i < j < |ticks| ==> ticks[i] < ticks[j])
  }

  /** On tick `tick` reservation `k` had to wait: it was not due, or its predecessor was created. */
  predicate Waits(times: seq<int>, start: int, incr: nat, ticks: seq<nat>, k: nat, tick: nat)
    requires k <= |ticks| && k < |times|
  {
    TimeOf(start, incr, tick) < times[k] || (k > 0 && tick <= ticks[k - 1])
  }

  /** What holds of the reservations created before or on tick `now`. */
  predicate Prompt(times: seq<int>, start: int, incr: nat, ticks: seq<nat>, now: nat)
  {
    && Admissible(times, start, incr, ticks)
    && (forall k :: 0 <= k < |ticks| ==> ticks[k] <= now)
    && (forall k :: 0 <= k < |ticks| && ticks[k] > 0 ==>
          Waits(times, start, incr, ticks, k, ticks[k] - 1))
    && (|ticks| < |times| && now > 0 ==> Waits(times, start, incr, ticks, |ticks|, now - 1))
  }

  /** Creating the head of the queue on tick `now`. */
  lemma PromptGrows(times: seq<int>, start: int, incr: nat, ticks: seq<nat>, now: nat)
    requires Prompt(times, start, incr, ticks, now) && |ticks| < |times|
    requires times[|ticks|] <= TimeOf(start, incr, now)
    requires forall k :: 0 <= k < |ticks| ==> ticks[k] < now
    ensures Prompt(times, start, incr, ticks + [now], now)
  {
    hide TimeOf;
    var ticks' := ticks + [now];
    forall k | 0 <= k < |ticks'| && ticks'[k] > 0
      ensures Waits(times, start, incr, ticks', k, ticks'[k] - 1)
    {
      assert Waits(times, start, incr, ticks, k, ticks'[k] - 1);
    }
  }

  /** No way to create the reservations in order and one a tick has any of them earlier. */
  lemma {:induction false} EarliestReservations(times: seq<int>, start: int, incr: nat, ticks: seq<nat>,
                                                now: nat, other: seq<nat>, k: nat)
    requires Prompt(times, start, incr, ticks, now) && Admissible(times, start, incr, other)
    requires k < |ticks| && k < |other|
    ensures ticks[k] <= other[k]
    decreases k
  {
    hide TimeOf;
    if other[k] < ticks[k] {
      assert Waits(times, start, incr, ticks, k, ticks[k] - 1);
      TimeMonotone(start, incr, other[k], ticks[k] - 1);
      EarliestReservations(times, start, incr, ticks, now, other, k - 1);
    }
  }

  /** Nor does any way create more of them in the ticks before `now`. */
  lemma MostReservations(times: seq<int>, start: int, incr: nat, ticks: seq<nat>,
                         now: nat, other: seq<nat>)
    requires Prompt(times, start, incr, ticks, now) && Admissible(times, start, incr, other)
    requires forall k :: 0 <= k < |other| ==> other[k] < now
    ensures |other| <= |ticks|
  {
    hide TimeOf;
    var k := |ticks|;
    if k < |other| {
      assert other[k] < now;
      assert Waits(times, start, incr, ticks, k, now - 1);
      TimeMonotone(start, incr, other[k], now - 1);
      EarliestReservations(times, start, incr, ticks, now, other, k - 1);
    }
  }
}
