/** The asynchronous process scheduler (process/aps_scheduler.cpp). The event loop runs one
    callback at a time, so each callback is one method. */
module Scheduling {
  import opened Sequences
  import opened Jobs
  import opened P90
  import opened SchedulerModel

  const DEFAULT_TIMEOUT := 30
  const P90_MIN_SAMPLES := 15

  /** Until enough runs are recorded, the default; then one and a half times the 90th
      percentile, rounded up. */
  ghost predicate IsTimeout(samples: seq<int>, expiry: int) {
    if |samples| < P90_MIN_SAMPLES then expiry == DEFAULT_TIMEOUT
    else exists p90 :: IsP90(samples, p90) && 2 * (expiry - 1) < 3 * p90 <= 2 * expiry
  }

  /** The same in numbers: 30 seconds below 15 samples; from then on the least number of seconds
      that is one and a half times the percentile or more. */
  lemma TimeoutInNumbers(samples: seq<int>, expiry: int, p90: int)
    ensures |samples| < 15 ==> (IsTimeout(samples, expiry) <==> expiry == 30)
    ensures |samples| >= 15 && IsP90(samples, p90) ==>
              (IsTimeout(samples, expiry) <==> 2 * expiry >= 3 * p90 > 2 * (expiry - 1))
  {
    if IsP90(samples, p90) {
      forall other | IsP90(samples, other) ensures other == p90 {
        P90IsUnique(samples, other, p90);
      }
    }
  }

  /** The event loop's context: only whether there is one matters here. */
  class IoContext {
    constructor ()
    {
    }
  }

  class Scheduler {
    var stopped: bool
    const pq: PendingQ
    const storage: FinishedStorage
    const estimator: P90Estimator
    const totalLane: Size
    const fastLane: Size
    const slowLane: Size
    var runningFast: Size
    var runningSlow: Size
    var running: map<string, RunningJob>

    ghost predicate Valid()
      reads this, estimator
    {
      estimator.Valid() && estimator.capacity == DEFAULT_CAPACITY &&
      totalLane >= 4 && fastLane == FastLane(totalLane) && slowLane == SlowLane(totalLane)
    }

    ghost function Abstract(): State
      reads this, pq, storage, estimator
    {
      State(totalLane, stopped, pq.q, running, storage.sink, runningFast, runningSlow, estimator.samples)
    }

    constructor (pq: PendingQ, storage: FinishedStorage, lane: Size)
      requires lane >= 4
      ensures Valid() && this.pq == pq && this.storage == storage && fresh(estimator)
      ensures Abstract() == State(lane, false, pq.q, map[], storage.sink, 0, 0, [])
    {
      this.pq, this.storage, this.totalLane := pq, storage, lane;
      fastLane := lane / 4;
      slowLane := lane - lane / 4;
      estimator := new P90Estimator(DEFAULT_CAPACITY);
      stopped, runningFast, runningSlow, running := false, 0, 0, map[];
    }

    /** Construction throws on a missing context, queue or store, and on fewer than four
        slots. The context itself is the environment of SchedulerRuns. */
    static method Make(ioc: IoContext?, pq: PendingQ?, storage: FinishedStorage?, lane: Size) returns (s: Scheduler?)
      ensures s == null <==> ioc == null || pq == null || storage == null || lane < 4
      ensures s != null ==> s.Valid() && s.pq == pq && s.storage == storage && fresh(s) && fresh(s.estimator) &&
                            s.Abstract() == State(lane, false, pq.q, map[], storage.sink, 0, 0, [])
    {
      if ioc == null {
        return null;
      }
      if pq == null || storage == null {
        return null;
      }
      if lane < 4 {
        return null;
      }
      s := new Scheduler(pq, storage, lane);
    }

    method Stop()
      requires Valid()
      modifies this
      ensures Valid() && Abstract() == old(Abstract()).(stopped := true)
    {
      stopped := true;
    }

    /** One turn. The result is what the timer is set to when one is armed. */
    method RunLoop(pid: int, timer: nat, now: int) returns (expiry: Option<int>)
      requires Valid()
      modifies this, pq
      ensures Valid() && Abstract() == Tick(old(Abstract()), pid, timer, now)
      ensures var s := old(Abstract());
              expiry.Some? <==> Starts(s) && ActualLane(s, s.queue[0].lane) == FAST
      ensures expiry.Some? ==> IsTimeout(estimator.samples, expiry.value)
    {
      expiry := None;
      if stopped {
        return;
      }
      var empty := pq.Empty();
      if !empty {
        var front := pq.Front();
        var free := Schedulable(front);
        if free {
          var pj := pq.Pop();
          expiry := Schedule(pj, pid, timer, now);
        }
      }
    }

    method Schedulable(pj: PendingJob) returns (ok: bool)
      requires Valid()
      ensures ok <==> (runningFast + runningSlow) % 0x1_0000_0000_0000_0000 < totalLane
    {
      if Wrap(runningFast + runningSlow) >= totalLane {
        return false;
      }
      match pj.lane {
        case FAST => return true;
        case SLOW =>
          if runningSlow < slowLane {
            return true;
          }
          if runningFast < fastLane / 2 {
            return true;
          }
      }
      return true;
    }

    method Schedule(pj: PendingJob, pid: int, timer: nat, now: int) returns (expiry: Option<int>)
      requires Valid()
      modifies this
      ensures Valid() && stopped == old(stopped)
      ensures var s := old(Abstract());
              var lane := ActualLane(s, pj.lane);
              Abstract() == Occupy(s, lane).(running :=
                map[pj.spec.id := StartEntry(pj, lane, pid, timer, now)] + s.running)
      ensures expiry.Some? <==> if pj.lane == FAST then 4 * (old(runningFast) + 1) <= totalLane
                                else 4 * old(runningSlow) >= 3 * totalLane
      ensures expiry.Some? ==> IsTimeout(estimator.samples, expiry.value)
    {
      var lane;
      match pj.lane {
        case FAST =>
          if runningFast < fastLane {
            runningFast := Wrap(runningFast + 1);
            lane := FAST;
          } else {
            runningSlow := Wrap(runningSlow + 1);
            lane := SLOW;
          }
        case SLOW =>
          if runningSlow < slowLane {
            runningSlow := Wrap(runningSlow + 1);
            lane := SLOW;
          } else {
            runningFast := Wrap(runningFast + 1);
            lane := FAST;
          }
      }
      ghost var next := Occupy(old(Abstract()), lane);
      assert lane == ActualLane(old(Abstract()), pj.lane);
      assert Abstract() == next;
      var armed := NoTimer;
      expiry := None;
      if lane == FAST {
        var after := ComputeTimeout();
        expiry := Some(after);
        armed := Timer(timer);
      }
      if pj.spec.id !in running {
        running := running[pj.spec.id := RunningJob(pj.spec, lane, pid, now, armed)];
      }
    }

    method HandleExit(id: string, status: int, now: int)
      requires Valid()
      modifies this, storage, estimator
      ensures Valid() && Abstract() == Exit(old(Abstract()), id, status, now)
    {
      if id !in running {
        return;
      }
      var rj := running[id];
      if NormalExit(status) {
        storage.Store(FinishedJob(rj.spec, rj.startTime, now, status));
        estimator.Add(Seconds(now - rj.startTime));
      }
      ghost var next := Exit(old(Abstract()), id, status, now);
      assert Abstract() == old(Abstract()).(store := next.store, samples := next.samples);
      match rj.lane {
        case FAST => runningFast := Wrap(runningFast - 1);
        case SLOW => runningSlow := Wrap(runningSlow - 1);
      }
      assert Abstract() == Release(old(Abstract()), rj.lane).(store := next.store, samples := next.samples);
      running := running - {id};
    }

    method HandleTimeout(id: string)
      requires Valid()
      modifies this, pq
      ensures Valid() && Abstract() == Timeout(old(Abstract()), id)
    {
      if id !in running {
        return;
      }
      var rj := running[id];
      match rj.lane {
        case FAST => runningFast := Wrap(runningFast - 1);
        case SLOW => runningSlow := Wrap(runningSlow - 1);
      }
      pq.Push(PendingJob(rj.spec, SLOW));
      running := running - {id};
    }

    method ComputeTimeout() returns (expiry: int)
      requires Valid()
      ensures IsTimeout(estimator.samples, expiry)
      ensures |estimator.samples| < 15 ==> expiry == 30
      ensures |estimator.samples| >= 15 ==>
                expiry >= 2 && 10 * CountAtMost(estimator.samples, expiry - 1) >= 9 * |estimator.samples|
    {
      var n := estimator.Size();
      if n < P90_MIN_SAMPLES {
        return DEFAULT_TIMEOUT;
      }
      var p90 := estimator.Compute();
      if p90 == 0 {
        assert false;  // samples are positive, so their 90th percentile is
        return DEFAULT_TIMEOUT;
      }
      expiry := (3 * p90 + 1) / 2;
      CountIsMonotone(estimator.samples, p90, expiry - 1);
      assert 2 * (expiry - 1) < 3 * p90 <= 2 * expiry;
    }
  }
}
