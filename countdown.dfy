/**
 * The arithmetic of TimerController's run loop over an abstract clock. The
 * loop waits at most TICK_GRANULARITY_MS at a time, then reads the monotonic
 * clock and recomputes the remaining time from the start of the run.
 */
module Countdown {

  const TICK_GRANULARITY_MS: int := 250

  /** One wait of the run loop: the remaining time, capped at the tick granularity. */
  function TickWait(remainingMs: int): (w: int)
    requires remainingMs > 0
    ensures 0 < w <= TICK_GRANULARITY_MS && w <= remainingMs
    ensures w == remainingMs || w == TICK_GRANULARITY_MS
  {
    if remainingMs < TICK_GRANULARITY_MS then remainingMs else TICK_GRANULARITY_MS
  }

  /** The remaining time the loop computes from the clock reading `now`. */
  function RemainingAt(durationMs: int, startAt: int, now: int): int
  {
    durationMs - (now - startAt)
  }

  /**
   * The remaining time a run holds before its `k`-th tick, when it resumes
   * holding `remainingMs` and its ticks read `readings` in turn.
   */
  function RemainingBefore(durationMs: int, startAt: int, remainingMs: int, readings: seq<int>, k: nat): int
    requires k <= |readings|
  {
    if k == 0 then remainingMs else RemainingAt(durationMs, startAt, readings[k - 1])
  }

  /**
   * Each reading is taken after the wait before it has fully elapsed: a
   * delay of `w` ms moves the monotonic clock forward by at least `w`.
   */
  ghost predicate DelaysHonoured(durationMs: int, startAt: int, remainingMs: int, readings: seq<int>)
  {
    forall k :: 0 <= k < |readings| && RemainingBefore(durationMs, startAt, remainingMs, readings, k) > 0 ==>
      RemainingAt(durationMs, startAt, readings[k])
        <= RemainingBefore(durationMs, startAt, remainingMs, readings, k)
           - TickWait(RemainingBefore(durationMs, startAt, remainingMs, readings, k))
  }

  /** The most ticks a run holding `remainingMs` can take: the remaining time in whole ticks, rounded up. */
  function TickBound(remainingMs: int): nat
  {
    if remainingMs <= 0 then 0 else (remainingMs + TICK_GRANULARITY_MS - 1) / TICK_GRANULARITY_MS
  }

  /**
   * When the clock honours every wait, a run holding `remainingMs > 0`
   * observes a non-positive remaining time within `TickBound(remainingMs)`
   * ticks: the loop ends, because every tick takes at least a full tick or
   * the whole remaining time off the measure.
   */
  lemma {:induction false} ExpiresWithin(durationMs: int, startAt: int, remainingMs: int, readings: seq<int>)
    requires remainingMs > 0
    requires DelaysHonoured(durationMs, startAt, remainingMs, readings)
    requires |readings| >= TickBound(remainingMs)
    ensures exists k :: 0 <= k < TickBound(remainingMs) && RemainingAt(durationMs, startAt, readings[k]) <= 0
    decreases |readings|
  {
    assert RemainingBefore(durationMs, startAt, remainingMs, readings, 0) == remainingMs;
    var next := RemainingAt(durationMs, startAt, readings[0]);
    if next > 0 {
      assert remainingMs > TICK_GRANULARITY_MS && next <= remainingMs - TICK_GRANULARITY_MS;
      assert TickBound(next) <= TickBound(remainingMs) - 1;
      var rest := readings[1..];
      forall k | 0 <= k < |rest| && RemainingBefore(durationMs, startAt, next, rest, k) > 0
        ensures RemainingAt(durationMs, startAt, rest[k])
                <= RemainingBefore(durationMs, startAt, next, rest, k)
                   - TickWait(RemainingBefore(durationMs, startAt, next, rest, k))
      {
        assert rest[k] == readings[k + 1];
        assert RemainingBefore(durationMs, startAt, next, rest, k)
            == RemainingBefore(durationMs, startAt, remainingMs, readings, k + 1);
      }
      ExpiresWithin(durationMs, startAt, next, rest);
      var k :| 0 <= k < TickBound(next) && RemainingAt(durationMs, startAt, rest[k]) <= 0;
      assert readings[k + 1] == rest[k];
    }
  }
}
