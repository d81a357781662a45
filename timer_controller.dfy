/**
 * TimerController: a restartable countdown. `Start` replaces any earlier run
 * by a new one; the run waits in ticks of at most TICK_GRANULARITY_MS,
 * recomputing the remaining time from the monotonic clock after each, and
 * calls the expiry callback once the remaining time is no longer positive.
 * The clock is the sequence of readings a run observes, and the callback is
 * the log `expirations` of the runs that fired.
 */
module TimerControl {
  import opened Wrappers
  import opened Countdown

  /** One launched run: its countdown and how far it has got. */
  datatype Job = Job(id: nat, durationMs: int, startAt: int, remainingMs: int, finished: bool)

  class TimerController {
    /** The last launched run, if `Stop` has not discarded it since. */
    var activeJob: Option<Job>
    /** The ids of the runs whose expiry callback has been called, in call order. */
    var expirations: seq<nat>
    /** The id the next launched run gets. */
    var nextRunId: nat
    /** The runs cancelled before they fired. */
    ghost var cancelled: set<nat>

    ghost predicate Valid()
      reads this
    {
      && (forall i :: 0 <= i < |expirations| ==> expirations[i] < nextRunId && expirations[i] !in cancelled)
      && (forall i, j :: 0 <= i < j < |expirations| ==> expirations[i] != expirations[j])
      && (forall id :: id in cancelled ==> id < nextRunId)
      // every run but the active one is over: it has fired or been cancelled
      && (forall id :: 0 <= id < nextRunId && id !in cancelled && id !in expirations ==>
            activeJob.Some? && activeJob.value.id == id)
      && (activeJob.Some? ==>
            && activeJob.value.id == nextRunId - 1
            && activeJob.value.id !in cancelled
            && (activeJob.value.finished <==> activeJob.value.id in expirations)
            && (activeJob.value.finished ==> activeJob.value.remainingMs <= 0))
    }

    constructor ()
      ensures Valid()
      ensures activeJob == None && expirations == [] && nextRunId == 0 && cancelled == {}
    {
      activeJob := None;
      expirations := [];
      nextRunId := 0;
      cancelled := {};
    }

    /**
     * Cancels the active run, if any, and forgets it. A run that has not
     * fired yet never fires afterwards; with no active run nothing changes.
     */
    method Stop()
      requires Valid()
      modifies this`activeJob, this`cancelled
      ensures Valid() && activeJob == None
      ensures cancelled == old(cancelled) + if old(activeJob).Some? && !old(activeJob).value.finished
                                              then {old(activeJob).value.id} else {}
    {
      if activeJob.Some? && !activeJob.value.finished {
        cancelled := cancelled + {activeJob.value.id};
      }
      activeJob := None;
    }

    /** Stops the current run, then launches a fresh one of `durationMs` that starts at clock reading `now`. */
    method Start(durationMs: int, now: int)
      requires Valid()
      modifies this`activeJob, this`cancelled, this`nextRunId
      ensures Valid()
      ensures activeJob == Some(Job(old(nextRunId), durationMs, now, durationMs, false))
      ensures nextRunId == old(nextRunId) + 1
      ensures cancelled == old(cancelled) + if old(activeJob).Some? && !old(activeJob).value.finished
                                              then {old(activeJob).value.id} else {}
    {
      Stop();
      activeJob := Some(Job(nextRunId, durationMs, now, durationMs, false));
      nextRunId := nextRunId + 1;
    }

    /**
     * Lets the active run go on for as many ticks as `readings` holds clock
     * readings (the reading after each wait), or until it fires. `waits` are
     * the delays it asked for. A run fires exactly when its remaining time
     * is not positive; a run that has fired or been stopped does nothing.
     */
    method RunActiveJob(readings: seq<int>) returns (fired: bool, waits: seq<int>)
      requires Valid()
      modifies this`activeJob, this`expirations
      ensures Valid()
      ensures old(activeJob).None? || old(activeJob).value.finished ==>
                !fired && waits == [] && activeJob == old(activeJob) && expirations == old(expirations)
      ensures old(activeJob).Some? && !old(activeJob).value.finished ==>
                var job := old(activeJob).value;
                && |waits| <= |readings|
                && (forall k :: 0 <= k < |waits| ==>
                      RemainingBefore(job.durationMs, job.startAt, job.remainingMs, readings, k) > 0
                      && waits[k] == TickWait(RemainingBefore(job.durationMs, job.startAt, job.remainingMs, readings, k)))
                && activeJob == Some(job.(remainingMs := RemainingBefore(job.durationMs, job.startAt, job.remainingMs, readings, |waits|),
                                          finished := fired))
                && (fired <==> RemainingBefore(job.durationMs, job.startAt, job.remainingMs, readings, |waits|) <= 0)
                && (!fired ==> |waits| == |readings|)
                && expirations == old(expirations) + if fired then [job.id] else []
      ensures old(activeJob).Some? && !old(activeJob).value.finished && old(activeJob).value.remainingMs <= 0 ==>
                fired && waits == []
      ensures old(activeJob).Some? && !old(activeJob).value.finished &&
              DelaysHonoured(old(activeJob).value.durationMs, old(activeJob).value.startAt, old(activeJob).value.remainingMs, readings) &&
              |readings| >= TickBound(old(activeJob).value.remainingMs) ==>
                fired && |waits| <= TickBound(old(activeJob).value.remainingMs)
    {
      if activeJob.None? || activeJob.value.finished {
        return false, [];
      }
      var job := activeJob.value;
      var remaining := job.remainingMs;
      waits := [];
      while remaining > 0 && |waits| < |readings|
        invariant |waits| <= |readings|
        invariant remaining == RemainingBefore(job.durationMs, job.startAt, job.remainingMs, readings, |waits|)
        invariant forall k :: 0 <= k < |waits| ==>
                    RemainingBefore(job.durationMs, job.startAt, job.remainingMs, readings, k) > 0
                    && waits[k] == TickWait(RemainingBefore(job.durationMs, job.startAt, job.remainingMs, readings, k))
        decreases |readings| - |waits|
      {
        // delay(wait); the clock then shows readings[|waits|]
        var wait := TickWait(remaining);
        remaining := job.durationMs - (readings[|waits|] - job.startAt);
        waits := waits + [wait];
      }
      fired := remaining <= 0;
      activeJob := Some(job.(remainingMs := remaining, finished := fired));
      if fired {
        expirations := expirations + [job.id];
      }
      if job.remainingMs > 0 && DelaysHonoured(job.durationMs, job.startAt, job.remainingMs, readings)
         && |readings| >= TickBound(job.remainingMs) {
        ExpiresWithin(job.durationMs, job.startAt, job.remainingMs, readings);
        ghost var k :| 0 <= k < TickBound(job.remainingMs) && RemainingAt(job.durationMs, job.startAt, readings[k]) <= 0;
        StopsBy(job.durationMs, job.startAt, job.remainingMs, readings, |waits|, k);
      }
    }
  }

  /**
   * A countdown that stops at the first tick showing a non-positive remaining
   * time, or when it runs out of readings, has stopped by tick `k + 1` and has
   * fired when reading `k` already shows a non-positive remaining time.
   */
  lemma StopsBy(durationMs: int, startAt: int, remainingMs: int, readings: seq<int>, ticks: nat, k: nat)
    requires ticks <= |readings|
    requires forall j :: 0 <= j < ticks ==> RemainingBefore(durationMs, startAt, remainingMs, readings, j) > 0
    requires RemainingBefore(durationMs, startAt, remainingMs, readings, ticks) <= 0 || ticks == |readings|
    requires k < |readings| && RemainingAt(durationMs, startAt, readings[k]) <= 0
    ensures RemainingBefore(durationMs, startAt, remainingMs, readings, ticks) <= 0
    ensures ticks <= k + 1
  {
    assert RemainingBefore(durationMs, startAt, remainingMs, readings, k + 1) <= 0;
  }
}
