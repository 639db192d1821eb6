/** Whole runs of the scheduler in its environment. The environment turns the loop, delivers
    each spawned run's exit at most once (however late, even after the run was killed and its
    job started again), lets armed timers expire, and delivers expired timers at most once
    (even when the entry that owned the timer is gone by then). */
module SchedulerRuns {
  import opened Sequences
  import opened Jobs
  import opened SchedulerModel
  import P90

  datatype Event =
    | TurnLoop(pid: int, now: int)
    | Stop
    | DeliverExit(run: nat, status: int, now: int)
    | ExpireTimer(run: nat)
    | DeliverTimer(run: nat)

  /** What spawning returned for a start, and when. */
  datatype Spawn = Spawn(pid: int, time: int)

  /** The scheduler, the callbacks still to come (by the number of the start that registered
      them, with the job id they captured), and what has happened so far. `holder` is, for each
      id, the start that last put an entry into the running table under it. */
  datatype World = World(
    s: State,
    awaited: map<nat, string>,
    armed: map<nat, string>,
    expired: map<nat, string>,
    started: seq<string>,
    spawns: seq<Spawn>,
    holder: map<string, nat>,
    requeued: seq<string>,
    finished: seq<string>,
    dropped: seq<string>)

  function Initial(total: Size, jobs: seq<PendingJob>): World {
    World(State(total, false, jobs, map[], map[], 0, 0, []), map[], map[], map[], [], [], map[], [], [], [])
  }

  /** Erasing an entry destroys its timer: one not yet expired is cancelled. */
  function Cancel(armed: map<nat, string>, timer: TimerRef): map<nat, string> {
    match timer
    case NoTimer => armed
    case Timer(number) => armed - {number}
  }

  function TurnLoopStep(w: World, pid: int, now: int): World {
    var run := |w.started|;
    var s' := Tick(w.s, pid, run, now);
    if !Starts(w.s) then w.(s := s')
    else
      var id := w.s.queue[0].spec.id;
      w.(s := s',
         started := w.started + [id],
         spawns := w.spawns + [Spawn(pid, now)],
         holder := if id in w.s.running then w.holder else w.holder[id := run],
         awaited := if pid != -1 then w.awaited[run := id] else w.awaited,
         armed := if s'.running[id].timer == Timer(run) then w.armed[run := id] else w.armed)
  }

  function DeliverExitStep(w: World, run: nat, status: int, now: int): World
    requires run in w.awaited
  {
    var id := w.awaited[run];
    var known := id in w.s.running;
    w.(s := Exit(w.s, id, status, now),
       awaited := w.awaited - {run},
       armed := if known then Cancel(w.armed, w.s.running[id].timer) else w.armed,
       finished := if known && NormalExit(status) then w.finished + [id] else w.finished,
       dropped := if known && !NormalExit(status) then w.dropped + [id] else w.dropped)
  }

  function DeliverTimerStep(w: World, run: nat): World
    requires run in w.expired
  {
    var id := w.expired[run];
    var known := id in w.s.running;
    w.(s := Timeout(w.s, id),
       expired := w.expired - {run},
       armed := if known then Cancel(w.armed, w.s.running[id].timer) else w.armed,
       requeued := if known then w.requeued + [id] else w.requeued)
  }

  /** One event; a callback that is not outstanding does not happen. */
  function Step(w: World, e: Event): World {
    match e
    case TurnLoop(pid, now) => TurnLoopStep(w, pid, now)
    case Stop => w.(s := w.s.(stopped := true))
    case DeliverExit(run, status, now) => if run in w.awaited then DeliverExitStep(w, run, status, now) else w
    case ExpireTimer(run) =>
      if run in w.armed then w.(armed := w.armed - {run}, expired := w.expired[run := w.armed[run]]) else w
    case DeliverTimer(run) => if run in w.expired then DeliverTimerStep(w, run) else w
  }

  function Run(w: World, events: seq<Event>): World
    decreases |events|
  {
    if events == [] then w else Run(Step(w, events[0]), events[1..])
  }

  lemma RunOfOne(w: World, e: Event)
    ensures Run(w, [e]) == Step(w, e)
  {
    assert [e][1..] == [];
  }

  lemma RunOfThree(w: World, a: Event, b: Event, c: Event)
    ensures Run(w, [a, b, c]) == Step(Step(Step(w, a), b), c)
  {
    RunOfOne(w, a);
    RunOfOne(Step(w, a), b);
    RunOfOne(Step(Step(w, a), b), c);
    RunOfAppend(w, [a], [b] + [c]);
    RunOfAppend(Step(w, a), [b], [c]);
    assert [a] + ([b] + [c]) == [a, b, c];
  }

  lemma {:induction false} RunOfAppend(w: World, a: seq<Event>, b: seq<Event>)
    ensures Run(w, a + b) == Run(Run(w, a), b)
    decreases |a|
  {
    if a == [] {
      assert a + b == b;
    } else {
      assert (a + b)[1..] == a[1..] + b;
      RunOfAppend(Step(w, a[0]), a[1..], b);
    }
  }

  function Ids(jobs: seq<PendingJob>): (ids: seq<string>)
    ensures |ids| == |jobs|
  {
    seq(|jobs|, i requires 0 <= i < |jobs| => jobs[i].spec.id)
  }

  // ---------------------------------------------------------------- what every state keeps

  /** Every job is filed under its own id and is one of the initial jobs. */
  ghost predicate Filed(s: State, specs: set<JobSpec>) {
    (forall i :: 0 <= i < |s.queue| ==> s.queue[i].spec in specs) &&
    (forall id :: id in s.running ==> s.running[id].spec.id == id && s.running[id].spec in specs) &&
    (forall id :: id in s.store ==> s.store[id].spec.id == id && s.store[id].spec in specs)
  }

  function Specs(jobs: seq<PendingJob>): set<JobSpec> {
    set i | 0 <= i < |jobs| :: jobs[i].spec
  }

  /** Four places that share nothing and together hold exactly `all`. */
  ghost predicate Partition(queue: seq<string>, running: set<string>, finished: seq<string>, dropped: seq<string>,
                            all: set<string>)
  {
    Distinct(queue) && Distinct(finished) && Distinct(dropped) &&
    Elements(queue) !! running !! Elements(finished) !! Elements(dropped) &&
    all == Elements(queue) + running + Elements(finished) + Elements(dropped)
  }

  ghost predicate Placed(w: World, all: set<string>) {
    Partition(Ids(w.s.queue), w.s.running.Keys, w.finished, w.dropped, all) &&
    w.s.store.Keys == Elements(w.finished)
  }

  /** The jobs that have left the scheduler for good. */
  function Gone(w: World): set<string> {
    Elements(w.finished) + Elements(w.dropped)
  }

  predicate OwnsTimer(running: map<string, RunningJob>, id: string, run: nat) {
    id in running && running[id].lane == FAST && running[id].timer == Timer(run)
  }

  predicate HasTimer(running: map<string, RunningJob>, armed: map<nat, string>, expired: map<nat, string>, id: string)
    requires id in running
  {
    match running[id].timer
    case NoTimer => running[id].lane == SLOW
    case Timer(run) => running[id].lane == FAST &&
                       ((run in armed && armed[run] == id) || (run in expired && expired[run] == id))
  }

  /** An armed timer belongs to the running entry that armed it; an expired one does too, or
      its job has left for good. Conversely exactly the FAST entries own such a timer. */
  ghost predicate Timers(running: map<string, RunningJob>, armed: map<nat, string>, expired: map<nat, string>,
                         gone: set<string>, starts: nat)
  {
    (forall run :: run in armed ==> run < starts && run !in expired && OwnsTimer(running, armed[run], run)) &&
    (forall run :: run in expired ==>
      run < starts && (OwnsTimer(running, expired[run], run) || expired[run] in gone)) &&
    (forall id :: id in running ==> HasTimer(running, armed, expired, id))
  }

  ghost predicate Timed(w: World) {
    Timers(w.s.running, w.armed, w.expired, Gone(w), |w.started|)
  }

  /** Start number `run` is the latest start of the job `id`. */
  predicate LatestStart(started: seq<string>, run: nat, id: string) {
    run < |started| && started[run] == id && id !in started[run + 1..]
  }

  /** Callbacks carry the number of the start that registered them. A running entry is that of
      its job's latest start, so is its timer, and that start's exit is still to come exactly
      when its spawn did not fail. */
  ghost predicate Numbered(w: World) {
    (forall run :: run in w.awaited ==> run < |w.started| && w.awaited[run] == w.started[run]) &&
    (forall id :: id in w.s.running ==> HeldByLatest(w, id))
  }

  predicate HeldByLatest(w: World, id: string)
    requires id in w.s.running
  {
    var rj := w.s.running[id];
    id in w.holder && LatestStart(w.started, w.holder[id], id) &&
    (rj.timer.Timer? ==> rj.timer.number == w.holder[id]) &&
    (rj.pid != -1 <==> w.holder[id] in w.awaited)
  }

  /** A running entry holds the process and the time of its job's latest start, and a stored
      record the time of that start. */
  ghost predicate Clocked(w: World) {
    |w.spawns| == |w.started| &&
    (forall id, run: nat :: id in w.s.running && LatestStart(w.started, run, id) ==>
      w.s.running[id].pid == w.spawns[run].pid && w.s.running[id].startTime == w.spawns[run].time) &&
    (forall id, run: nat :: id in w.s.store && LatestStart(w.started, run, id) ==>
      w.s.store[id].startTime == w.spawns[run].time)
  }

  /** A waiting job is as first submitted and never started, or was queued again as SLOW. */
  ghost predicate Waiting(w: World, jobs: seq<PendingJob>) {
    (forall id :: id in w.s.running || id in w.requeued ==> id in w.started) &&
    forall i :: 0 <= i < |w.s.queue| ==>
      (w.s.queue[i] in jobs && w.s.queue[i].spec.id !in w.started) ||
      (w.s.queue[i].lane == SLOW && w.s.queue[i].spec.id in w.started)
  }

  /** The sequence of starts and the queue are what came first, then what was queued again. */
  predicate InOrder(w: World, ids: seq<string>) {
    w.started + Ids(w.s.queue) == ids + w.requeued
  }

  predicate Tallied(w: World) {
    |w.started| == |w.finished| + |w.dropped| + |w.requeued| + |w.s.running|
  }

  function Duration(fj: FinishedJob): int {
    Seconds(fj.endTime - fj.startTime)
  }

  /** The run times on record, in the order in which the jobs finished. */
  function Durations(finished: seq<string>, store: map<string, FinishedJob>): (ds: seq<int>)
    ensures |ds| == |finished|
  {
    if finished == [] then []
    else
      var id := finished[|finished| - 1];
      Durations(finished[..|finished| - 1], store) + [if id in store then Duration(store[id]) else 0]
  }

  /** The estimator's window holds the last positive run times of the finished jobs. */
  ghost predicate Sampled(samples: seq<int>, finished: seq<string>, store: map<string, FinishedJob>) {
    samples == LastN(P90.Positives(Durations(finished, store)), P90.DEFAULT_CAPACITY)
  }

  ghost predicate Inv(w: World, total: Size, jobs: seq<PendingJob>) {
    w.s.total == total && LanesSafe(w.s) &&
    Filed(w.s, Specs(jobs)) && Placed(w, Elements(Ids(jobs))) && Timed(w) && Numbered(w) && Clocked(w) &&
    Waiting(w, jobs) &&
    InOrder(w, Ids(jobs)) && Tallied(w) && Sampled(w.s.samples, w.finished, w.s.store)
  }

  lemma InitialHolds(total: Size, jobs: seq<PendingJob>)
    requires Distinct(Ids(jobs))
    ensures Inv(Initial(total, jobs), total, jobs)
  {
    assert InLane(map[], FAST) == {} && InLane(map[], SLOW) == {};
  }

  // ---------------------------------------------------------------- one lemma per property

  /** The events that change more than the callbacks still to come. */
  predicate Effective(w: World, e: Event) {
    match e
    case TurnLoop(_, _) => Starts(w.s)
    case Stop => false
    case DeliverExit(run, _, _) => run in w.awaited && w.awaited[run] in w.s.running
    case ExpireTimer(_) => false
    case DeliverTimer(run) => run in w.expired && w.expired[run] in w.s.running
  }

  /** The id an effective event is about. */
  function Subject(w: World, e: Event): string
    requires Effective(w, e)
  {
    match e
    case TurnLoop(_, _) => w.s.queue[0].spec.id
    case DeliverExit(run, _, _) => w.awaited[run]
    case DeliverTimer(run) => w.expired[run]
  }

  lemma TickKeepsFiled(s: State, pid: int, timer: nat, now: int, specs: set<JobSpec>)
    requires Filed(s, specs)
    ensures Filed(Tick(s, pid, timer, now), specs)
  {
  }

  lemma ExitKeepsFiled(s: State, id: string, status: int, now: int, specs: set<JobSpec>)
    requires Filed(s, specs)
    ensures Filed(Exit(s, id, status, now), specs)
  {
  }

  lemma TimeoutKeepsFiled(s: State, id: string, specs: set<JobSpec>)
    requires Filed(s, specs)
    ensures Filed(Timeout(s, id), specs)
  {
  }

  lemma FiledStep(w: World, e: Event, specs: set<JobSpec>)
    requires Filed(w.s, specs)
    ensures Filed(Step(w, e).s, specs)
  {
    match e {
      case TurnLoop(pid, now) => TickKeepsFiled(w.s, pid, |w.started|, now, specs);
      case DeliverExit(run, status, now) =>
        if run in w.awaited {
          ExitKeepsFiled(w.s, w.awaited[run], status, now, specs);
        }
      case DeliverTimer(run) =>
        if run in w.expired {
          TimeoutKeepsFiled(w.s, w.expired[run], specs);
        }
      case _ =>
    }
  }

  lemma MoveToRunning(queue: seq<string>, running: set<string>, finished: seq<string>, dropped: seq<string>,
                      all: set<string>)
    requires queue != [] && Partition(queue, running, finished, dropped, all)
    ensures queue[0] !in running && queue[0] !in queue[1..] && queue[0] !in finished && queue[0] !in dropped
    ensures Partition(queue[1..], running + {queue[0]}, finished, dropped, all)
  {
    assert queue == [queue[0]] + queue[1..];
    assert Elements(queue) == Elements(queue[1..]) + {queue[0]};
    assert queue[0] in Elements(queue);
  }

  lemma MoveToList(list: seq<string>, id: string)
    requires Distinct(list) && id !in Elements(list)
    ensures Distinct(list + [id]) && Elements(list + [id]) == Elements(list) + {id}
  {
  }

  lemma MoveFromRunning(queue: seq<string>, running: set<string>, finished: seq<string>, dropped: seq<string>,
                        all: set<string>, id: string)
    requires Partition(queue, running, finished, dropped, all) && id in running
    ensures Partition(queue, running - {id}, finished + [id], dropped, all)
    ensures Partition(queue, running - {id}, finished, dropped + [id], all)
    ensures Partition(queue + [id], running - {id}, finished, dropped, all)
    ensures id !in Elements(finished)
  {
    assert id !in Elements(queue) && id !in Elements(finished) && id !in Elements(dropped);
    MoveToList(finished, id);
    MoveToList(dropped, id);
    MoveToList(queue, id);
  }

  /** The front of the queue is nowhere else, and a running job is not gone. */
  ghost predicate Apart(w: World) {
    (forall id :: id in w.s.running ==> id !in Gone(w) && id !in w.s.store) &&
    (w.s.queue != [] ==>
      var id := w.s.queue[0].spec.id;
      id !in w.s.running && id !in Gone(w) && id !in w.s.store && id !in Ids(w.s.queue[1..]) &&
      Ids(w.s.queue) == [id] + Ids(w.s.queue[1..]))
  }

  lemma PlacedMeansApart(w: World, all: set<string>)
    requires Placed(w, all)
    ensures Apart(w)
  {
    if w.s.queue != [] {
      MoveToRunning(Ids(w.s.queue), w.s.running.Keys, w.finished, w.dropped, all);
      assert Ids(w.s.queue)[1..] == Ids(w.s.queue[1..]);
    }
  }

  lemma StartKeepsPlaces(w: World, pid: int, now: int, all: set<string>)
    requires Placed(w, all) && Starts(w.s)
    ensures Placed(TurnLoopStep(w, pid, now), all)
  {
    var w' := TurnLoopStep(w, pid, now);
    PlacedMeansApart(w, all);
    MoveToRunning(Ids(w.s.queue), w.s.running.Keys, w.finished, w.dropped, all);
    assert Ids(w'.s.queue) == Ids(w.s.queue)[1..];
    assert w'.s.running.Keys == w.s.running.Keys + {w.s.queue[0].spec.id};
  }

  lemma ExitKeepsPlaces(w: World, run: nat, status: int, now: int, all: set<string>)
    requires Placed(w, all) && run in w.awaited && w.awaited[run] in w.s.running
    requires w.s.running[w.awaited[run]].spec.id == w.awaited[run]
    ensures Placed(DeliverExitStep(w, run, status, now), all)
  {
    var w', id := DeliverExitStep(w, run, status, now), w.awaited[run];
    assert w'.s.running.Keys == w.s.running.Keys - {id};
    MoveFromRunning(Ids(w.s.queue), w.s.running.Keys, w.finished, w.dropped, all, id);
    if NormalExit(status) {
      MoveToList(w.finished, id);
      assert w'.s.store.Keys == w.s.store.Keys + {id};
    }
  }

  lemma TimeoutKeepsPlaces(w: World, run: nat, all: set<string>)
    requires Placed(w, all) && run in w.expired && w.expired[run] in w.s.running
    requires w.s.running[w.expired[run]].spec.id == w.expired[run]
    ensures Placed(DeliverTimerStep(w, run), all)
  {
    var w', id := DeliverTimerStep(w, run), w.expired[run];
    assert w'.s.running.Keys == w.s.running.Keys - {id};
    MoveFromRunning(Ids(w.s.queue), w.s.running.Keys, w.finished, w.dropped, all, id);
    assert Ids(w'.s.queue) == Ids(w.s.queue) + [id];
  }

  lemma PlacedStep(w: World, e: Event, all: set<string>, specs: set<JobSpec>)
    requires Placed(w, all) && Filed(w.s, specs)
    ensures Placed(Step(w, e), all)
  {
    if Effective(w, e) {
      match e {
        case TurnLoop(pid, now) => StartKeepsPlaces(w, pid, now, all);
        case DeliverExit(run, status, now) => ExitKeepsPlaces(w, run, status, now, all);
        case DeliverTimer(run) => TimeoutKeepsPlaces(w, run, all);
      }
    }
  }

  lemma StartKeepsTimers(running: map<string, RunningJob>, armed: map<nat, string>, expired: map<nat, string>,
                         gone: set<string>, starts: nat, id: string, rj: RunningJob)
    requires Timers(running, armed, expired, gone, starts) && id !in running && id !in gone
    requires rj.timer == if rj.lane == FAST then Timer(starts) else NoTimer
    ensures Timers(map[id := rj] + running, if rj.lane == FAST then armed[starts := id] else armed, expired, gone,
                   starts + 1)
  {
    var running' := map[id := rj] + running;
    forall other | other in running
      ensures HasTimer(running', if rj.lane == FAST then armed[starts := id] else armed, expired, other)
    {
      assert HasTimer(running, armed, expired, other);
    }
  }

  /** An entry goes for good: its timer is cancelled, or expired and left behind. */
  lemma ExitKeepsTimers(running: map<string, RunningJob>, armed: map<nat, string>, expired: map<nat, string>,
                        gone: set<string>, starts: nat, id: string)
    requires Timers(running, armed, expired, gone, starts) && id in running
    ensures Timers(running - {id}, Cancel(armed, running[id].timer), expired, gone + {id}, starts)
  {
    forall other | other in running - {id}
      ensures HasTimer(running - {id}, Cancel(armed, running[id].timer), expired, other)
    {
      assert HasTimer(running, armed, expired, other);
    }
  }

  /** An expired timer fires on the entry that armed it, and is its job's only one. */
  lemma TimeoutKeepsTimers(running: map<string, RunningJob>, armed: map<nat, string>, expired: map<nat, string>,
                           gone: set<string>, starts: nat, run: nat)
    requires Timers(running, armed, expired, gone, starts)
    requires run in expired && expired[run] in running && expired[run] !in gone
    ensures Timers(running - {expired[run]}, Cancel(armed, running[expired[run]].timer), expired - {run}, gone, starts)
  {
    var id := expired[run];
    assert OwnsTimer(running, id, run);
    forall other | other in running - {id}
      ensures HasTimer(running - {id}, Cancel(armed, running[id].timer), expired - {run}, other)
    {
      assert HasTimer(running, armed, expired, other);
    }
  }

  /** A timer expires, or an expired timer finds its job gone. */
  lemma ExpiryKeepsTimers(running: map<string, RunningJob>, armed: map<nat, string>, expired: map<nat, string>,
                          gone: set<string>, starts: nat, run: nat)
    requires Timers(running, armed, expired, gone, starts)
    ensures run in armed ==> Timers(running, armed - {run}, expired[run := armed[run]], gone, starts)
    ensures run in expired && expired[run] !in running ==> Timers(running, armed, expired - {run}, gone, starts)
  {
    forall id | id in running
      ensures run in armed ==> HasTimer(running, armed - {run}, expired[run := armed[run]], id)
      ensures run in expired && expired[run] !in running ==> HasTimer(running, armed, expired - {run}, id)
    {
      assert HasTimer(running, armed, expired, id);
    }
  }

  lemma TimedStep(w: World, e: Event)
    requires Timed(w) && Apart(w)
    ensures Timed(Step(w, e))
  {
    var r, n := w.s.running, |w.started|;
    if Effective(w, e) {
      var w', id := Step(w, e), Subject(w, e);
      if e.TurnLoop? {
        var pj := w.s.queue[0];
        var rj := StartEntry(pj, ActualLane(w.s, pj.lane), e.pid, n, e.now);
        StartKeepsTimers(r, w.armed, w.expired, Gone(w), n, id, rj);
        assert w'.s.running == map[id := rj] + r;
      } else if e.DeliverExit? {
        ExitKeepsTimers(r, w.armed, w.expired, Gone(w), n, id);
        assert Gone(w') == Gone(w) + {id};
      } else {
        TimeoutKeepsTimers(r, w.armed, w.expired, Gone(w), n, e.run);
      }
    } else if e.ExpireTimer? || e.DeliverTimer? {
      ExpiryKeepsTimers(r, w.armed, w.expired, Gone(w), n, e.run);
    }
  }

  lemma LaterStartsAppend(started: seq<string>, run: nat, id: string, other: string)
    requires LatestStart(started, run, id) && other != id
    ensures LatestStart(started + [other], run, id)
  {
    assert (started + [other])[run + 1..] == started[run + 1..] + [other];
  }

  lemma StartKeepsNumbers(w: World, pid: int, now: int)
    requires Numbered(w) && Apart(w) && Starts(w.s)
    ensures Numbered(TurnLoopStep(w, pid, now))
  {
    var w', id := TurnLoopStep(w, pid, now), w.s.queue[0].spec.id;
    forall other | other in w'.s.running ensures HeldByLatest(w', other) {
      if other != id {
        assert other in w.s.running && w'.s.running[other] == w.s.running[other];
        assert HeldByLatest(w, other);
        LaterStartsAppend(w.started, w.holder[other], other, id);
      }
    }
  }

  lemma ExitKeepsNumbers(w: World, run: nat, status: int, now: int)
    requires Numbered(w) && run in w.awaited
    ensures Numbered(DeliverExitStep(w, run, status, now))
  {
    var w' := DeliverExitStep(w, run, status, now);
    forall id | id in w'.s.running ensures HeldByLatest(w', id) {
      assert id in w.s.running && w'.s.running[id] == w.s.running[id];
      assert HeldByLatest(w, id);
    }
  }

  lemma NumberedStep(w: World, e: Event)
    requires Numbered(w) && Apart(w)
    ensures Numbered(Step(w, e))
  {
    if e.TurnLoop? && Starts(w.s) {
      StartKeepsNumbers(w, e.pid, e.now);
    } else if e.DeliverExit? && e.run in w.awaited {
      ExitKeepsNumbers(w, e.run, e.status, e.now);
    } else {
      var w' := Step(w, e);
      assert w'.started == w.started && w'.holder == w.holder && w'.awaited == w.awaited;
      forall id | id in w'.s.running ensures HeldByLatest(w', id) {
        assert id in w.s.running && w'.s.running[id] == w.s.running[id];
        assert HeldByLatest(w, id);
      }
    }
  }

  lemma LatestStartBefore(started: seq<string>, run: nat, id: string, other: string)
    requires LatestStart(started + [other], run, id)
    ensures if other == id then run == |started| else LatestStart(started, run, id)
  {
    var longer := started + [other];
    if run < |started| {
      assert longer[run + 1..] == started[run + 1..] + [other];
    }
  }

  lemma StartKeepsClocks(w: World, pid: int, now: int)
    requires Clocked(w) && Apart(w) && Starts(w.s)
    ensures Clocked(TurnLoopStep(w, pid, now))
  {
    var w', id := TurnLoopStep(w, pid, now), w.s.queue[0].spec.id;
    TickFrame(w.s, pid, |w.started|, now);
    forall other, run: nat | (other in w'.s.running || other in w'.s.store) && LatestStart(w'.started, run, other)
      ensures other in w'.s.running ==>
                w'.s.running[other].pid == w'.spawns[run].pid && w'.s.running[other].startTime == w'.spawns[run].time
      ensures other in w'.s.store ==> w'.s.store[other].startTime == w'.spawns[run].time
    {
      LatestStartBefore(w.started, run, other, id);
    }
  }

  lemma ExitKeepsClocks(w: World, run: nat, status: int, now: int)
    requires Clocked(w) && run in w.awaited
    requires w.awaited[run] in w.s.running ==> w.s.running[w.awaited[run]].spec.id == w.awaited[run]
    ensures Clocked(DeliverExitStep(w, run, status, now))
  {
  }

  lemma ClockedStep(w: World, e: Event, specs: set<JobSpec>)
    requires Clocked(w) && Apart(w) && Filed(w.s, specs)
    ensures Clocked(Step(w, e))
  {
    match e {
      case TurnLoop(pid, now) =>
        if Starts(w.s) {
          StartKeepsClocks(w, pid, now);
        }
      case DeliverExit(run, status, now) =>
        if run in w.awaited {
          ExitKeepsClocks(w, run, status, now);
        }
      case DeliverTimer(run) =>
        if run in w.expired {
          TimeoutFrame(w.s, w.expired[run]);
        }
      case _ =>
    }
  }

  lemma WaitingStep(w: World, e: Event, jobs: seq<PendingJob>, specs: set<JobSpec>)
    requires Waiting(w, jobs) && Apart(w) && Filed(w.s, specs)
    ensures Waiting(Step(w, e), jobs)
  {
    if Effective(w, e) && e.TurnLoop? {
      var q, q' := w.s.queue, Step(w, e).s.queue;
      forall i | 0 <= i < |q'| ensures q'[i] == q[i + 1] && q'[i].spec.id != q[0].spec.id {
        assert Ids(q')[i] in Ids(q');
      }
    }
  }

  lemma InOrderStep(w: World, e: Event, ids: seq<string>, specs: set<JobSpec>)
    requires InOrder(w, ids) && Filed(w.s, specs)
    ensures InOrder(Step(w, e), ids)
  {
    if Effective(w, e) {
      var q, q', id := w.s.queue, Step(w, e).s.queue, Subject(w, e);
      if e.TurnLoop? {
        assert Ids(q) == [id] + Ids(q');
        assert w.started + ([id] + Ids(q')) == (w.started + [id]) + Ids(q');
      } else if e.DeliverTimer? {
        assert Ids(q') == Ids(q) + [id];
        assert w.started + (Ids(q) + [id]) == (ids + w.requeued) + [id] == ids + (w.requeued + [id]);
      }
    }
  }

  lemma SizeAfter(running: map<string, RunningJob>, id: string, rj: RunningJob)
    ensures id !in running ==> |map[id := rj] + running| == |running| + 1
    ensures id in running ==> |running - {id}| == |running| - 1
  {
    assert (map[id := rj] + running).Keys == running.Keys + {id};
    assert (running - {id}).Keys == running.Keys - {id};
  }

  lemma TalliedStep(w: World, e: Event)
    requires Tallied(w) && Apart(w)
    ensures Tallied(Step(w, e))
  {
    if Effective(w, e) {
      var w', id := Step(w, e), Subject(w, e);
      if e.TurnLoop? {
        SizeAfter(w.s.running, id, w'.s.running[id]);
        assert w'.s.running == map[id := w'.s.running[id]] + w.s.running;
      } else {
        SizeAfter(w.s.running, id, w.s.running[id]);
        assert w'.s.running == w.s.running - {id};
      }
    }
  }

  lemma {:induction false} DurationsStay(finished: seq<string>, store: map<string, FinishedJob>, fj: FinishedJob)
    requires fj.spec.id !in finished
    ensures Durations(finished, map[fj.spec.id := fj] + store) == Durations(finished, store)
  {
    if finished != [] {
      DurationsStay(finished[..|finished| - 1], store, fj);
    }
  }

  lemma OneDurationMore(finished: seq<string>, store: map<string, FinishedJob>, fj: FinishedJob)
    requires fj.spec.id !in store && fj.spec.id !in finished
    ensures Durations(finished + [fj.spec.id], map[fj.spec.id := fj] + store) ==
            Durations(finished, store) + [Duration(fj)]
  {
    DurationsStay(finished, store, fj);
    assert (finished + [fj.spec.id])[..|finished|] == finished;
  }

  lemma FinishKeepsSamples(samples: seq<int>, finished: seq<string>, store: map<string, FinishedJob>, fj: FinishedJob)
    requires Sampled(samples, finished, store) && fj.spec.id !in store && fj.spec.id !in finished
    ensures Sampled(P90.Record(samples, P90.DEFAULT_CAPACITY, Duration(fj)), finished + [fj.spec.id],
                    map[fj.spec.id := fj] + store)
  {
    OneDurationMore(finished, store, fj);
    P90.RecordExtends(Durations(finished, store), Duration(fj), P90.DEFAULT_CAPACITY);
  }

  lemma SampledStep(w: World, e: Event, specs: set<JobSpec>)
    requires Sampled(w.s.samples, w.finished, w.s.store) && Apart(w) && Filed(w.s, specs)
    ensures var w' := Step(w, e); Sampled(w'.s.samples, w'.finished, w'.s.store)
  {
    RecordOnFinish(w, e);
    if Finishes(w, e) {
      var rj := w.s.running[w.awaited[e.run]];
      FinishKeepsSamples(w.s.samples, w.finished, w.s.store, FinishedJob(rj.spec, rj.startTime, e.now, e.status));
    }
  }

  /** The event is the normal exit of a running job. */
  predicate Finishes(w: World, e: Event) {
    Effective(w, e) && e.DeliverExit? && NormalExit(e.status)
  }

  lemma ExitRecords(w: World, run: nat, status: int, now: int)
    requires run in w.awaited
    ensures var w', id := DeliverExitStep(w, run, status, now), w.awaited[run];
            w'.s.total == w.s.total &&
            if id !in w.s.running || !NormalExit(status) then
              w'.finished == w.finished && w'.s.store == w.s.store && w'.s.samples == w.s.samples
            else
              var rj := w.s.running[id];
              var fj := FinishedJob(rj.spec, rj.startTime, now, status);
              w'.finished == w.finished + [id] && w'.s.store == map[rj.spec.id := fj] + w.s.store &&
              w'.s.samples == P90.Record(w.s.samples, P90.DEFAULT_CAPACITY, Duration(fj))
  {
  }

  lemma RecordOnFinish(w: World, e: Event)
    ensures Step(w, e).s.total == w.s.total
    ensures if !Finishes(w, e) then
              Step(w, e).finished == w.finished && Step(w, e).s.store == w.s.store &&
              Step(w, e).s.samples == w.s.samples
            else
              var id := w.awaited[e.run];
              var rj := w.s.running[id];
              var fj := FinishedJob(rj.spec, rj.startTime, e.now, e.status);
              Step(w, e).finished == w.finished + [id] &&
              Step(w, e).s.store == map[rj.spec.id := fj] + w.s.store &&
              Step(w, e).s.samples == P90.Record(w.s.samples, P90.DEFAULT_CAPACITY, Duration(fj))
  {
    match e {
      case TurnLoop(pid, now) => TickFrame(w.s, pid, |w.started|, now);
      case DeliverExit(run, status, now) =>
        if run in w.awaited {
          ExitRecords(w, run, status, now);
        }
      case DeliverTimer(run) =>
        if run in w.expired {
          TimeoutFrame(w.s, w.expired[run]);
        }
      case _ =>
    }
  }

  lemma LanesStep(w: World, e: Event)
    requires LanesSafe(w.s) && Apart(w)
    ensures LanesSafe(Step(w, e).s)
  {
    if Effective(w, e) {
      var id := Subject(w, e);
      if e.TurnLoop? {
        TickKeepsLanes(w.s, e.pid, |w.started|, e.now);
      } else {
        ReleaseKeepsLanes(w.s, id);
      }
    }
  }

  lemma StepKeeps(w: World, total: Size, jobs: seq<PendingJob>, e: Event)
    requires Inv(w, total, jobs)
    ensures Inv(Step(w, e), total, jobs)
  {
    var specs, ids := Specs(jobs), Ids(jobs);
    var all := Elements(ids);
    FiledStep(w, e, specs);
    PlacedStep(w, e, all, specs);
    PlacedMeansApart(w, all);
    RecordOnFinish(w, e);
    TimedStep(w, e);
    NumberedStep(w, e);
    ClockedStep(w, e, specs);
    WaitingStep(w, e, jobs, specs);
    InOrderStep(w, e, ids, specs);
    TalliedStep(w, e);
    SampledStep(w, e, specs);
    LanesStep(w, e);
  }

  lemma {:induction false} RunKeeps(w: World, total: Size, jobs: seq<PendingJob>, events: seq<Event>)
    requires Inv(w, total, jobs)
    ensures Inv(Run(w, events), total, jobs)
    decreases |events|
  {
    if events != [] {
      StepKeeps(w, total, jobs, events[0]);
      RunKeeps(Step(w, events[0]), total, jobs, events[1..]);
    }
  }

  // ---------------------------------------------------------------- main results

  ghost predicate Reachable(w: World, total: Size, jobs: seq<PendingJob>) {
    Distinct(Ids(jobs)) && exists events :: w == Run(Initial(total, jobs), events)
  }

  lemma ReachableKeeps(w: World, total: Size, jobs: seq<PendingJob>)
    requires Reachable(w, total, jobs)
    ensures Inv(w, total, jobs)
  {
    var events :| w == Run(Initial(total, jobs), events);
    InitialHolds(total, jobs);
    RunKeeps(Initial(total, jobs), total, jobs, events);
  }

  /** What a reachable state keeps about its entries, timers and starts. */
  lemma ReachableTimes(w: World, total: Size, jobs: seq<PendingJob>)
    requires Reachable(w, total, jobs)
    ensures Timed(w) && Numbered(w) && Clocked(w) && Apart(w) && Gone(w) == w.s.store.Keys + Elements(w.dropped)
  {
    ReachableKeeps(w, total, jobs);
    PlacedMeansApart(w, Elements(Ids(jobs)));
  }

  /** The counters always are the numbers of running jobs per lane, and within the lanes. */
  lemma LaneSafety(w: World, total: Size, jobs: seq<PendingJob>)
    requires Reachable(w, total, jobs)
    ensures w.s.fast == |set id | id in w.s.running && w.s.running[id].lane == FAST|
    ensures w.s.slow == |set id | id in w.s.running && w.s.running[id].lane == SLOW|
    ensures 4 * w.s.fast <= total && 4 * w.s.slow < 3 * total + 4
  {
    ReachableKeeps(w, total, jobs);
  }

  /** A turn of the loop in full: stopped, with nothing waiting or every slot taken it changes
      nothing. Otherwise the front job starts; its exit will come unless spawning failed, and its
      timer is armed if it got the FAST lane. */
  lemma TurnStartsFront(w: World, total: Size, jobs: seq<PendingJob>, pid: int, now: int)
    requires Reachable(w, total, jobs)
    ensures var s, w', n := w.s, Step(w, TurnLoop(pid, now)), |w.started|;
            if s.stopped || s.queue == [] || |s.running| >= total then w' == w
            else
              var spec, requested := s.queue[0].spec, s.queue[0].lane;
              var inFast := if requested == FAST then 4 * (s.fast + 1) <= total else 4 * s.slow >= 3 * total;
              w'.started == w.started + [spec.id] && w'.spawns == w.spawns + [Spawn(pid, now)] &&
              w'.s.queue == s.queue[1..] &&
              w'.s.running == s.running[spec.id := if inFast then RunningJob(spec, FAST, pid, now, Timer(n))
                                                   else RunningJob(spec, SLOW, pid, now, NoTimer)] &&
              w'.awaited == (if pid == -1 then w.awaited else w.awaited[n := spec.id]) &&
              w'.armed == (if inFast then w.armed[n := spec.id] else w.armed) && w'.expired == w.expired
  {
    ReachableLanes(w, total, jobs);
    FreeSlotMeansRoom(w.s);
    StartedInFull(w, pid, now);
  }

  lemma StartedInFull(w: World, pid: int, now: int)
    requires LanesSafe(w.s) && Apart(w)
    ensures var s, w', n := w.s, Step(w, TurnLoop(pid, now)), |w.started|;
            if !Starts(s) then w' == w
            else
              var spec, requested := s.queue[0].spec, s.queue[0].lane;
              var inFast := if requested == FAST then 4 * (s.fast + 1) <= s.total else 4 * s.slow >= 3 * s.total;
              w'.started == w.started + [spec.id] && w'.spawns == w.spawns + [Spawn(pid, now)] &&
              w'.s.queue == s.queue[1..] &&
              w'.s.running == s.running[spec.id := if inFast then RunningJob(spec, FAST, pid, now, Timer(n))
                                                   else RunningJob(spec, SLOW, pid, now, NoTimer)] &&
              w'.awaited == (if pid == -1 then w.awaited else w.awaited[n := spec.id]) &&
              w'.armed == (if inFast then w.armed[n := spec.id] else w.armed) && w'.expired == w.expired
  {
    TurnInFull(w.s, pid, |w.started|, now);
  }

  lemma ReachableLanes(w: World, total: Size, jobs: seq<PendingJob>)
    requires Reachable(w, total, jobs)
    ensures LanesSafe(w.s) && Apart(w) && w.s.total == total
  {
    ReachableKeeps(w, total, jobs);
    PlacedMeansApart(w, Elements(Ids(jobs)));
  }

  lemma ReachableEntry(w: World, total: Size, jobs: seq<PendingJob>, id: string)
    requires Reachable(w, total, jobs) && id in w.s.running
    ensures w.s.running[id].spec.id == id && id !in w.s.store && |w.s.samples| <= 1000
  {
    ReachableKeeps(w, total, jobs);
    PlacedMeansApart(w, Elements(Ids(jobs)));
  }

  /** A running job that exits, with whatever code, is finished: its record and its whole seconds
      are kept. */
  lemma ExitsAreFinished(w: World, total: Size, jobs: seq<PendingJob>, run: nat, code: int, now: int)
    requires Reachable(w, total, jobs) && run in w.awaited && w.awaited[run] in w.s.running && 0 <= code <= 255
    ensures var w', id := Step(w, DeliverExit(run, 256 * code, now)), w.awaited[run];
            var rj := w.s.running[id];
            var took := now - rj.startTime;
            w'.finished == w.finished + [id] && w'.dropped == w.dropped && w'.s.running == w.s.running - {id} &&
            w'.s.store == w.s.store[id := FinishedJob(rj.spec, rj.startTime, now, 256 * code)] &&
            w'.s.samples ==
              if took < 1_000_000_000 then w.s.samples
              else (if |w.s.samples| == 1000 then w.s.samples[1..] else w.s.samples) + [took / 1_000_000_000]
  {
    ReachableEntry(w, total, jobs, w.awaited[run]);
    ExitWithCode(w.s, w.awaited[run], code, now);
    FinishedByCode(w, run, code, now);
  }

  lemma FinishedByCode(w: World, run: nat, code: int, now: int)
    requires run in w.awaited && w.awaited[run] in w.s.running && 0 <= code <= 255
    ensures var w', id := Step(w, DeliverExit(run, 256 * code, now)), w.awaited[run];
            w'.s == Exit(w.s, id, 256 * code, now) && w'.finished == w.finished + [id] && w'.dropped == w.dropped
  {
    WaitStatuses(code, 1, 0);
  }

  /** A running job that is killed is dropped, without a record or a sample. */
  lemma KillsAreDropped(w: World, run: nat, signal: int, higher: nat, now: int)
    requires run in w.awaited && w.awaited[run] in w.s.running && 1 <= signal <= 127
    ensures var w', id := Step(w, DeliverExit(run, signal + 128 * higher, now)), w.awaited[run];
            w'.dropped == w.dropped + [id] && w'.finished == w.finished && w'.s.running == w.s.running - {id} &&
            w'.s.store == w.s.store && w'.s.samples == w.s.samples
  {
    ExitBySignal(w.s, w.awaited[run], signal, higher, now);
    WaitStatuses(0, signal, higher);
  }

  /** Once stopped, nothing starts any more, whatever happens. */
  lemma {:induction false} StoppedStartsNothing(w: World, events: seq<Event>)
    requires w.s.stopped
    ensures Run(w, events).s.stopped && Run(w, events).started == w.started
    decreases |events|
  {
    if events != [] {
      StaysStopped(w, events[0]);
      StoppedStartsNothing(Step(w, events[0]), events[1..]);
    }
  }

  lemma StaysStopped(w: World, e: Event)
    requires w.s.stopped
    ensures Step(w, e).s.stopped && Step(w, e).started == w.started
  {
    match e {
      case DeliverExit(run, status, now) =>
        if run in w.awaited {
          ExitFrame(w.s, w.awaited[run], status, now);
        }
      case DeliverTimer(run) =>
        if run in w.expired {
          TimeoutFrame(w.s, w.expired[run]);
        }
      case _ =>
    }
  }

  /** How many of the four places hold a job. */
  function PlacesOf(w: World, id: string): nat {
    (if id in Ids(w.s.queue) then 1 else 0) + (if id in w.s.running then 1 else 0) +
    (if id in w.s.store then 1 else 0) + (if id in w.dropped then 1 else 0)
  }

  /** No job is lost or doubled, and every start is accounted for. */
  lemma JobConservation(w: World, total: Size, jobs: seq<PendingJob>)
    requires Reachable(w, total, jobs)
    ensures forall id :: PlacesOf(w, id) == if id in Ids(jobs) then 1 else 0
    ensures Distinct(Ids(w.s.queue)) && Distinct(w.finished) && Distinct(w.dropped)
    ensures w.s.store.Keys == Elements(w.finished)
    ensures |w.started| == |w.finished| + |w.dropped| + |w.requeued| + |w.s.running|
  {
    ReachableKeeps(w, total, jobs);
    forall id ensures PlacesOf(w, id) == if id in Ids(jobs) then 1 else 0 {
      assert id in Ids(w.s.queue) <==> id in Elements(Ids(w.s.queue));
      assert id in w.dropped <==> id in Elements(w.dropped);
      assert id in Ids(jobs) <==> id in Elements(Ids(jobs));
    }
  }

  lemma SpecById(jobs: seq<PendingJob>, job: PendingJob, other: PendingJob)
    requires Distinct(Ids(jobs)) && job in jobs && other in jobs && other.spec.id == job.spec.id
    ensures other == job
  {
    var i :| 0 <= i < |jobs| && jobs[i] == job;
    var j :| 0 <= j < |jobs| && jobs[j] == other;
    assert Ids(jobs)[i] == Ids(jobs)[j];
  }

  lemma SpecsById(jobs: seq<PendingJob>, job: PendingJob)
    requires Distinct(Ids(jobs)) && job in jobs
    ensures forall spec :: spec in Specs(jobs) && spec.id == job.spec.id ==> spec == job.spec
  {
    forall spec | spec in Specs(jobs) && spec.id == job.spec.id ensures spec == job.spec {
      var j :| 0 <= j < |jobs| && jobs[j].spec == spec;
      SpecById(jobs, job, jobs[j]);
    }
  }

  lemma QueuedAsExpected(w: World, jobs: seq<PendingJob>, job: PendingJob, i: nat)
    requires Distinct(Ids(jobs)) && job in jobs && Waiting(w, jobs)
    requires forall spec :: spec in Specs(jobs) && spec.id == job.spec.id ==> spec == job.spec
    requires i < |w.s.queue| && w.s.queue[i].spec in Specs(jobs) && w.s.queue[i].spec.id == job.spec.id
    ensures w.s.queue[i] == if job.spec.id in w.started then PendingJob(job.spec, SLOW) else job
  {
    if job.spec.id !in w.started {
      SpecById(jobs, job, w.s.queue[i]);
    }
  }

  /** Wherever a job is, it carries the specification it was submitted with; a job started
      before waits as SLOW, and one never started waits as submitted. */
  lemma JobsKeepTheirSpecs(w: World, total: Size, jobs: seq<PendingJob>, job: PendingJob)
    requires Reachable(w, total, jobs) && job in jobs
    ensures var id := job.spec.id;
            (id in w.s.running ==> w.s.running[id].spec == job.spec) &&
            (id in w.s.store ==> w.s.store[id].spec == job.spec)
    ensures forall i :: 0 <= i < |w.s.queue| && w.s.queue[i].spec.id == job.spec.id ==>
              w.s.queue[i] == if job.spec.id in w.started then PendingJob(job.spec, SLOW) else job
  {
    ReachableKeeps(w, total, jobs);
    SpecsById(jobs, job);
    forall i | 0 <= i < |w.s.queue| && w.s.queue[i].spec.id == job.spec.id
      ensures w.s.queue[i] == if job.spec.id in w.started then PendingJob(job.spec, SLOW) else job
    {
      QueuedAsExpected(w, jobs, job, i);
    }
  }

  /** An armed or expired timer belongs to the FAST entry of its job's latest start, unless
      its job has left for good, which only an expired timer can outlive. Every FAST entry,
      and no SLOW one, has such a timer to come. */
  lemma TimersMatchTheirRuns(w: World, total: Size, jobs: seq<PendingJob>)
    requires Reachable(w, total, jobs)
    ensures forall run :: run in w.armed ==>
              OwnsTimer(w.s.running, w.armed[run], run) && LatestStart(w.started, run, w.armed[run])
    ensures forall run :: run in w.expired ==>
              if w.expired[run] in w.s.running then
                OwnsTimer(w.s.running, w.expired[run], run) && LatestStart(w.started, run, w.expired[run])
              else w.expired[run] in w.s.store || w.expired[run] in w.dropped
    ensures forall id :: id in w.s.running ==> HasTimer(w.s.running, w.armed, w.expired, id)
  {
    ReachableTimes(w, total, jobs);
    TimersOfLatestStarts(w);
  }

  lemma TimersOfLatestStarts(w: World)
    requires Timed(w) && Numbered(w) && Apart(w)
    ensures forall run :: run in w.armed ==>
              OwnsTimer(w.s.running, w.armed[run], run) && LatestStart(w.started, run, w.armed[run])
    ensures forall run :: run in w.expired && w.expired[run] in w.s.running ==>
              OwnsTimer(w.s.running, w.expired[run], run) && LatestStart(w.started, run, w.expired[run])
    ensures forall run :: run in w.expired && w.expired[run] !in w.s.running ==> w.expired[run] in Gone(w)
  {
    forall id | id in w.s.running && w.s.running[id].timer.Timer?
      ensures LatestStart(w.started, w.s.running[id].timer.number, id)
    {
      assert HeldByLatest(w, id);
    }
  }

  lemma TimeoutShape(w: World, run: nat)
    requires Timed(w) && Apart(w) && LanesSafe(w.s) && run in w.expired && w.expired[run] in w.s.running
    ensures var w', id := Step(w, DeliverTimer(run)), w.expired[run];
            OwnsTimer(w.s.running, id, run) && w.s.fast > 0 && w'.requeued == w.requeued + [id] &&
            w'.s == w.s.(queue := w.s.queue + [PendingJob(w.s.running[id].spec, SLOW)],
                         running := w.s.running - {id}, fast := w.s.fast - 1)
  {
    ReleaseKeepsLanes(w.s, w.expired[run]);
    TimeoutFrame(w.s, w.expired[run]);
  }

  /** A timer that is delivered hits the FAST run that armed it, puts its job at the end of
      the queue as SLOW, or finds nothing: the SLOW branch of the handler is never taken. */
  lemma TimeoutsHitTheirRun(w: World, total: Size, jobs: seq<PendingJob>, run: nat)
    requires Reachable(w, total, jobs) && run in w.expired
    ensures var w', id := Step(w, DeliverTimer(run)), w.expired[run];
            if id in w.s.running then
              OwnsTimer(w.s.running, id, run) && w.s.fast > 0 && w'.requeued == w.requeued + [id] &&
              w'.s == w.s.(queue := w.s.queue + [PendingJob(w.s.running[id].spec, SLOW)],
                           running := w.s.running - {id}, fast := w.s.fast - 1)
            else w'.s == w.s && w'.requeued == w.requeued
  {
    ReachableTimes(w, total, jobs);
    ReachableLanes(w, total, jobs);
    if w.expired[run] in w.s.running {
      TimeoutShape(w, run);
    }
  }

  lemma LatestStartIsUnique(started: seq<string>, a: nat, b: nat, id: string)
    requires LatestStart(started, a, id) && LatestStart(started, b, id)
    ensures a == b
  {
    forall k | a < k < |started| ensures started[k] != id {
      assert started[k] == started[a + 1..][k - a - 1];
    }
    forall k | b < k < |started| ensures started[k] != id {
      assert started[k] == started[b + 1..][k - b - 1];
    }
  }

  /** An exit that finds its job running, in either lane, ends the run it belongs to exactly
      when the job has not been started again since. */
  lemma ExitsHitTheirRun(w: World, total: Size, jobs: seq<PendingJob>, run: nat)
    requires Reachable(w, total, jobs) && run in w.awaited && w.awaited[run] in w.s.running
    ensures var id := w.awaited[run];
            id in w.holder && (w.holder[id] == run <==> LatestStart(w.started, run, id))
  {
    ReachableTimes(w, total, jobs);
    var id := w.awaited[run];
    assert HeldByLatest(w, id);
    if LatestStart(w.started, run, id) {
      LatestStartIsUnique(w.started, run, w.holder[id], id);
    }
  }

  /** A timeout kills the process of its job's latest start, and the run time on record is
      counted from that start. */
  lemma EntriesAreOfTheLatestStart(w: World, total: Size, jobs: seq<PendingJob>, run: nat, id: string)
    requires Reachable(w, total, jobs) && LatestStart(w.started, run, id)
    ensures |w.spawns| == |w.started|
    ensures id in w.s.running ==>
              w.s.running[id].pid == w.spawns[run].pid && w.s.running[id].startTime == w.spawns[run].time
    ensures id in w.s.store ==> w.s.store[id].startTime == w.spawns[run].time
  {
    ReachableTimes(w, total, jobs);
  }

  /** Jobs start in the order in which they were queued, first or again. */
  lemma FirstInFirstOut(w: World, total: Size, jobs: seq<PendingJob>)
    requires Reachable(w, total, jobs)
    ensures w.started + Ids(w.s.queue) == Ids(jobs) + w.requeued
  {
    ReachableKeeps(w, total, jobs);
  }

  /** The turns of the loop, along a run, that are not stopped and find a free slot. */
  function FreeTurns(w: World, events: seq<Event>): nat
    decreases |events|
  {
    if events == [] then 0
    else (if events[0].TurnLoop? && !w.s.stopped && HasFreeSlot(w.s) then 1 else 0) +
         FreeTurns(Step(w, events[0]), events[1..])
  }

  lemma {:induction false} StartsAreKept(w: World, events: seq<Event>)
    ensures w.started <= Run(w, events).started
    decreases |events|
  {
    if events != [] {
      QueueMoves(w, events[0]);
      StartsAreKept(Step(w, events[0]), events[1..]);
    }
  }

  /** A starting turn moves the front of the queue to the log; nothing else starts a job or
      takes one off the queue. */
  lemma QueueMoves(w: World, e: Event)
    ensures var w' := Step(w, e);
            if e.TurnLoop? && Starts(w.s) then
              w'.s.queue == w.s.queue[1..] && w'.started == w.started + [w.s.queue[0].spec.id]
            else w.s.queue <= w'.s.queue && w'.started == w.started
  {
  }

  /** The job at position p of the queue is started by the (p+1)-th such turn, as the
      (p+1)-th start from here. */
  lemma {:induction false} StartsInTurn(w: World, events: seq<Event>, p: nat)
    requires p < |w.s.queue| && FreeTurns(w, events) > p
    ensures var started := Run(w, events).started;
            |started| > |w.started| + p && started[|w.started| + p] == w.s.queue[p].spec.id
    decreases |events|, 1
  {
    TurnsUnfold(w, events);
    QueueMoves(w, events[0]);
    StartsAfterTurn(w, Step(w, events[0]), events[0].TurnLoop? && Starts(w.s), events[1..], p);
  }

  /** The same once the first event has happened, which started the front job or did not. */
  lemma {:induction false} StartsAfterTurn(w: World, w': World, starts: bool, events: seq<Event>, p: nat)
    requires p < |w.s.queue| && FreeTurns(w', events) + (if starts then 1 else 0) > p
    requires if starts then w'.s.queue == w.s.queue[1..] && w'.started == w.started + [w.s.queue[0].spec.id]
             else w.s.queue <= w'.s.queue && w'.started == w.started
    ensures var started := Run(w', events).started;
            |started| > |w.started| + p && started[|w.started| + p] == w.s.queue[p].spec.id
    decreases |events|, 2
  {
    if !starts {
      StartsInTurn(w', events, p);
    } else if p > 0 {
      StartsInTurn(w', events, p - 1);
    } else {
      StartsAreKept(w', events);
    }
  }

  lemma TurnsUnfold(w: World, events: seq<Event>)
    requires events != []
    ensures var w' := Step(w, events[0]);
            Run(w, events) == Run(w', events[1..]) &&
            FreeTurns(w', events[1..]) == FreeTurns(w, events) -
              (if events[0].TurnLoop? && !w.s.stopped && HasFreeSlot(w.s) then 1 else 0)
  {
  }

  /** The estimator's window is the run times, as stored, of the jobs that finished last. */
  lemma WindowIsOfFinishedJobs(w: World, total: Size, jobs: seq<PendingJob>)
    requires Reachable(w, total, jobs)
    ensures var all, n := P90.Positives(Durations(w.finished, w.s.store)), |w.s.samples|;
            n == (if |all| < 1000 then |all| else 1000) && w.s.samples == all[|all| - n..]
  {
    ReachableKeeps(w, total, jobs);
  }

  /** Records are only added. */
  predicate Extends(w: World, w': World) {
    w.finished <= w'.finished && w.dropped <= w'.dropped &&
    forall id :: id in w.s.store ==> id in w'.s.store && w'.s.store[id] == w.s.store[id]
  }

  lemma DropsAreKept(w: World, e: Event)
    ensures w.dropped <= Step(w, e).dropped
  {
  }

  lemma {:induction false} RecordsAreKept(w: World, events: seq<Event>)
    ensures Extends(w, Run(w, events))
    decreases |events|
  {
    if events != [] {
      RecordOnFinish(w, events[0]);
      DropsAreKept(w, events[0]);
      RecordsAreKept(Step(w, events[0]), events[1..]);
    }
  }

  lemma PlacesAfter(w: World, total: Size, jobs: seq<PendingJob>, events: seq<Event>)
    requires Reachable(w, total, jobs)
    ensures Placed(Run(w, events), Elements(Ids(jobs)))
  {
    ReachableKeeps(w, total, jobs);
    RunKeeps(w, total, jobs, events);
  }

  /** A job that has left never waits or runs again, and its record stays as first stored. */
  lemma GoneForGood(w: World, total: Size, jobs: seq<PendingJob>, events: seq<Event>, id: string)
    requires Reachable(w, total, jobs) && (id in w.s.store || id in w.dropped)
    ensures var w' := Run(w, events);
            id !in w'.s.running && id !in Ids(w'.s.queue) &&
            (id in w.s.store ==> id in w'.s.store && w'.s.store[id] == w.s.store[id]) &&
            (id in w.dropped ==> id in w'.dropped)
  {
    var w', all := Run(w, events), Elements(Ids(jobs));
    PlacesAfter(w, total, jobs, events);
    RecordsAreKept(w, events);
    assert id in w'.s.store || id in w'.dropped;
    LeaversAreElsewhere(w', all, id);
  }

  lemma LeaversAreElsewhere(w: World, all: set<string>, id: string)
    requires Placed(w, all) && (id in w.s.store || id in w.dropped)
    ensures id !in w.s.running && id !in Ids(w.s.queue)
  {
    assert id in w.dropped <==> id in Elements(w.dropped);
    assert id in Ids(w.s.queue) <==> id in Elements(Ids(w.s.queue));
  }

  // ---------------------------------------------------------------- what the code does not guarantee

  /** A SLOW run none of whose job's exits is to come. */
  predicate Stuck(w: World, id: string) {
    id in w.s.running && w.s.running[id].lane == SLOW && forall run :: run in w.awaited ==> w.awaited[run] != id
  }

  lemma StuckStep(w: World, e: Event, id: string)
    requires Timed(w) && Apart(w) && Stuck(w, id)
    ensures Stuck(Step(w, e), id)
  {
  }

  /** Such an entry, and the slot it takes, stay for ever. */
  lemma {:induction false} StuckForEver(w: World, total: Size, jobs: seq<PendingJob>, events: seq<Event>, id: string)
    requires Inv(w, total, jobs) && Stuck(w, id)
    ensures Stuck(Run(w, events), id)
    decreases |events|
  {
    if events != [] {
      PlacedMeansApart(w, Elements(Ids(jobs)));
      StuckStep(w, events[0], id);
      StepKeeps(w, total, jobs, events[0]);
      StuckForEver(Step(w, events[0]), total, jobs, events[1..], id);
    }
  }

  /** Every other entry can leave, with nothing else in the scheduler changed but a job more at
      the end of the queue: by a normal exit, or by its timer. */
  lemma LeavesUnlessStuck(w: World, id: string) returns (events: seq<Event>)
    requires Timed(w) && id in w.s.running && !Stuck(w, id)
    ensures var w' := Run(w, events);
            w'.s.running == w.s.running - {id} && w'.s.stopped == w.s.stopped && w'.s.total == w.s.total &&
            w.s.queue <= w'.s.queue && w'.started == w.started && w'.dropped == w.dropped &&
            forall other :: other != id ==> (Stuck(w', other) <==> Stuck(w, other))
  {
    assert HasTimer(w.s.running, w.armed, w.expired, id);
    match w.s.running[id].timer {
      case NoTimer =>
        var run :| run in w.awaited && w.awaited[run] == id;
        events := [DeliverExit(run, 0, 0)];
        RunOfOne(w, events[0]);
        ExitLeaves(w, run);
        OthersStayAsStuck(w, Run(w, events), id);
      case Timer(run) =>
        if run in w.expired && w.expired[run] == id {
          events := [DeliverTimer(run)];
          RunOfOne(w, events[0]);
          TimerLeaves(w, run);
        } else {
          var w' := Step(w, ExpireTimer(run));
          events := [ExpireTimer(run)] + [DeliverTimer(run)];
          RunOfAppend(w, [ExpireTimer(run)], [DeliverTimer(run)]);
          RunOfOne(w, ExpireTimer(run));
          RunOfOne(w', DeliverTimer(run));
          TimerLeaves(w', run);
        }
        OthersStayAsStuck(w, Run(w, events), id);
    }
  }

  /** A running job exits normally. */
  lemma ExitLeaves(w: World, run: nat)
    requires run in w.awaited && w.awaited[run] in w.s.running
    ensures var w' := Step(w, DeliverExit(run, 0, 0));
            w'.s.running == w.s.running - {w.awaited[run]} && w'.s.stopped == w.s.stopped && w'.s.total == w.s.total &&
            w'.s.queue == w.s.queue && w'.started == w.started && w'.dropped == w.dropped &&
            w'.awaited == w.awaited - {run}
  {
    ExitFrame(w.s, w.awaited[run], 0, 0);
  }

  /** A running job runs out of time. */
  lemma TimerLeaves(w: World, run: nat)
    requires run in w.expired && w.expired[run] in w.s.running
    ensures var w' := Step(w, DeliverTimer(run));
            w'.s.running == w.s.running - {w.expired[run]} && w'.s.stopped == w.s.stopped && w'.s.total == w.s.total &&
            w.s.queue <= w'.s.queue && w'.started == w.started && w'.dropped == w.dropped && w'.awaited == w.awaited
  {
    TimeoutFrame(w.s, w.expired[run]);
  }

  /** Whether an entry is stuck depends on it and its job's exits alone. */
  lemma OthersStayAsStuck(w: World, w': World, id: string)
    requires w'.s.running == w.s.running - {id}
    requires forall run :: run in w'.awaited ==> run in w.awaited && w'.awaited[run] == w.awaited[run]
    requires forall run :: run in w.awaited && w.awaited[run] != id ==> run in w'.awaited
    ensures forall other :: other != id ==> (Stuck(w', other) <==> Stuck(w, other))
  {
    forall other | other != id && other in w.s.running
      ensures (forall run :: run in w'.awaited ==> w'.awaited[run] != other) <==>
              (forall run :: run in w.awaited ==> w.awaited[run] != other)
    {
      if run :| run in w.awaited && w.awaited[run] == other {
        assert run in w'.awaited && w'.awaited[run] == other;
      }
    }
  }

  /** A running entry stays for ever exactly when it is stuck. */
  lemma StaysExactlyWhenStuck(w: World, total: Size, jobs: seq<PendingJob>, id: string)
    requires Reachable(w, total, jobs) && id in w.s.running
    ensures (forall events :: id in Run(w, events).s.running) <==> Stuck(w, id)
  {
    ReachableKeeps(w, total, jobs);
    if Stuck(w, id) {
      forall events ensures id in Run(w, events).s.running {
        StuckForEver(w, total, jobs, events, id);
      }
    } else {
      var events := LeavesUnlessStuck(w, id);
      assert id !in Run(w, events).s.running;
    }
  }

  /** An entry is stuck exactly when it is SLOW, the spawn of its start failed, and no exit of
      an earlier start of its job is still to come. */
  lemma StuckExactlyAfterFailedSpawn(w: World, total: Size, jobs: seq<PendingJob>, id: string)
    requires Reachable(w, total, jobs) && id in w.s.running
    ensures id in w.holder && LatestStart(w.started, w.holder[id], id) && |w.spawns| == |w.started|
    ensures Stuck(w, id) <==>
              w.s.running[id].lane == SLOW && w.spawns[w.holder[id]].pid == -1 &&
              forall run :: run in w.awaited && run < w.holder[id] ==> w.awaited[run] != id
  {
    ReachableTimes(w, total, jobs);
    HeldEntry(w, id);
  }

  lemma HeldEntry(w: World, id: string)
    requires Numbered(w) && Clocked(w) && id in w.s.running
    ensures id in w.holder && LatestStart(w.started, w.holder[id], id)
    ensures w.s.running[id].pid == w.spawns[w.holder[id]].pid
    ensures w.s.running[id].pid != -1 <==> w.holder[id] in w.awaited
    ensures w.holder[id] in w.awaited ==> w.awaited[w.holder[id]] == id
    ensures forall run :: run in w.awaited && w.awaited[run] == id ==> run <= w.holder[id]
  {
    assert HeldByLatest(w, id);
    var latest := w.holder[id];
    forall run | run in w.awaited && w.awaited[run] == id ensures run <= latest {
      assert forall k :: latest < k < |w.started| ==> w.started[k] == w.started[latest + 1..][k - latest - 1];
    }
  }

  lemma ReachableStep(w: World, total: Size, jobs: seq<PendingJob>, e: Event)
    requires Reachable(w, total, jobs)
    ensures Reachable(Step(w, e), total, jobs)
  {
    var events :| w == Run(Initial(total, jobs), events);
    RunOfAppend(Initial(total, jobs), events, [e]);
    RunOfOne(w, e);
    assert Step(w, e) == Run(Initial(total, jobs), events + [e]);
  }

  lemma FailedStartIsStuck(w: World, now: int)
    requires Apart(w) && Starts(w.s) && ActualLane(w.s, w.s.queue[0].lane) == SLOW
    ensures var id := w.s.queue[0].spec.id;
            id in TurnLoopStep(w, -1, now).s.running &&
            (Stuck(TurnLoopStep(w, -1, now), id) <==> forall run :: run in w.awaited ==> w.awaited[run] != id)
  {
  }

  /** A start in the SLOW lane whose spawn fails holds its slot for ever exactly when no exit of
      an earlier run of the same job is still to come. */
  lemma FailedSlowStartIsStuck(w: World, total: Size, jobs: seq<PendingJob>, now: int)
    requires Reachable(w, total, jobs) && Starts(w.s) && ActualLane(w.s, w.s.queue[0].lane) == SLOW
    ensures var id, w' := w.s.queue[0].spec.id, Step(w, TurnLoop(-1, now));
            (forall events :: id in Run(w', events).s.running) <==>
            (forall run :: run in w.awaited ==> w.awaited[run] != id)
  {
    ReachableTimes(w, total, jobs);
    FailedStartIsStuck(w, now);
    ReachableStep(w, total, jobs, TurnLoop(-1, now));
    StaysExactlyWhenStuck(Step(w, TurnLoop(-1, now)), total, jobs, w.s.queue[0].spec.id);
  }

  // ---------------------------------------------------------------- progress

  function StuckJobs(w: World): set<string> {
    set id | id in w.s.running && Stuck(w, id)
  }

  /** Stuck entries are SLOW, so with four slots or more they never fill all of them. */
  lemma StuckWithinSlowLane(w: World)
    requires LanesSafe(w.s) && w.s.total >= 4
    ensures |StuckJobs(w)| <= SlowLane(w.s.total) < w.s.total
  {
    SubsetSize(StuckJobs(w), InLane(w.s.running, SLOW));
  }

  lemma SomeEntryCanLeave(w: World) returns (id: string)
    requires |StuckJobs(w)| < |w.s.running|
    ensures id in w.s.running && !Stuck(w, id)
  {
    assert |w.s.running| == |w.s.running.Keys|;
    if w.s.running.Keys <= StuckJobs(w) {
      SubsetSize(w.s.running.Keys, StuckJobs(w));
    }
    id :| id in w.s.running.Keys && id !in StuckJobs(w);
  }

  lemma StartFront(w: World) returns (events: seq<Event>)
    requires Starts(w.s)
    ensures Run(w, events).started == w.started + [w.s.queue[0].spec.id]
  {
    events := [TurnLoop(1, 0)];
    RunOfOne(w, events[0]);
    QueueMoves(w, events[0]);
  }

  lemma StartsAtOnceOrNext(w: World, total: Size, jobs: seq<PendingJob>) returns (events: seq<Event>)
    requires Inv(w, total, jobs) && total >= 4 && !w.s.stopped && w.s.queue != []
    ensures Run(w, events).started == w.started + [w.s.queue[0].spec.id]
  {
    FreeSlotMeansRoom(w.s);
    StuckWithinSlowLane(w);
    if |w.s.running| < total {
      events := StartFront(w);
    } else {
      var id := SomeEntryCanLeave(w);
      var before := LeavesUnlessStuck(w, id);
      RoomAfterLeaving(w, total, jobs, before, id);
      var more := StartFront(Run(w, before));
      events := before + more;
      RunOfAppend(w, before, more);
    }
  }

  /** From every unstopped state some continuation starts the front job next: at once, or once
      an entry has left. */
  lemma FrontCanStart(w: World, total: Size, jobs: seq<PendingJob>) returns (events: seq<Event>)
    requires Reachable(w, total, jobs) && total >= 4 && !w.s.stopped && w.s.queue != []
    ensures Run(w, events).started == w.started + [w.s.queue[0].spec.id]
  {
    ReachableKeeps(w, total, jobs);
    events := StartsAtOnceOrNext(w, total, jobs);
  }

  lemma RoomAfterLeaving(w: World, total: Size, jobs: seq<PendingJob>, events: seq<Event>, id: string)
    requires Inv(w, total, jobs) && id in w.s.running
    requires Run(w, events).s.running == w.s.running - {id}
    ensures HasFreeSlot(Run(w, events).s)
  {
    SizeAfter(w.s.running, id, w.s.running[id]);
    NoMoreThanSlots(w.s);
    LanesAfter(w, total, jobs, events);
    FreeSlotMeansRoom(Run(w, events).s);
  }

  lemma NoMoreThanSlots(s: State)
    requires LanesSafe(s)
    ensures |s.running| <= s.total
  {
    LanesPartition(s.running);
  }

  lemma LanesAfter(w: World, total: Size, jobs: seq<PendingJob>, events: seq<Event>)
    requires Inv(w, total, jobs)
    ensures LanesSafe(Run(w, events).s) && Run(w, events).s.total == w.s.total
  {
    RunKeeps(w, total, jobs, events);
  }

  lemma OneLeaves(w: World, total: Size, jobs: seq<PendingJob>) returns (events: seq<Event>)
    requires Inv(w, total, jobs) && |StuckJobs(w)| < |w.s.running|
    ensures var w' := Run(w, events);
            |w'.s.running| < |w.s.running| && StuckJobs(w') == StuckJobs(w) &&
            w'.s.stopped == w.s.stopped && w'.dropped == w.dropped
  {
    var id := SomeEntryCanLeave(w);
    events := LeavesUnlessStuck(w, id);
    SizeAfter(w.s.running, id, w.s.running[id]);
    SameStuckJobs(w, Run(w, events), id);
  }

  lemma SameStuckJobs(w: World, w': World, id: string)
    requires w'.s.running == w.s.running - {id} && !Stuck(w, id)
    requires forall other :: other != id ==> (Stuck(w', other) <==> Stuck(w, other))
    ensures StuckJobs(w') == StuckJobs(w)
  {
  }

  lemma AllAreStuck(w: World)
    requires |StuckJobs(w)| >= |w.s.running|
    ensures w.s.running.Keys == StuckJobs(w)
  {
    assert |w.s.running| == |w.s.running.Keys|;
    SubsetSize(StuckJobs(w), w.s.running.Keys);
  }

  lemma {:induction false} LetAllLeave(w: World, total: Size, jobs: seq<PendingJob>) returns (events: seq<Event>)
    requires Inv(w, total, jobs)
    ensures var w' := Run(w, events);
            w'.s.running.Keys == StuckJobs(w') == StuckJobs(w) && w'.s.stopped == w.s.stopped && w'.dropped == w.dropped
    decreases |w.s.running|
  {
    if |StuckJobs(w)| >= |w.s.running| {
      AllAreStuck(w);
      events := [];
    } else {
      var before := OneLeaves(w, total, jobs);
      RunKeeps(w, total, jobs, before);
      var more := LetAllLeave(Run(w, before), total, jobs);
      events := before + more;
      RunOfAppend(w, before, more);
    }
  }

  lemma RoomBesideStuck(w: World)
    requires LanesSafe(w.s) && w.s.total >= 4 && w.s.running.Keys == StuckJobs(w)
    ensures HasFreeSlot(w.s)
  {
    StuckWithinSlowLane(w);
    FreeSlotMeansRoom(w.s);
    assert |w.s.running| == |w.s.running.Keys|;
  }

  lemma AddedAndRemoved(before: map<string, RunningJob>, between: map<string, RunningJob>, id: string)
    requires id !in before && between.Keys == before.Keys + {id}
    requires forall other :: other in before ==> between[other] == before[other]
    ensures between - {id} == before
  {
  }

  lemma StartAndFinish(w: World) returns (events: seq<Event>)
    requires LanesSafe(w.s) && Starts(w.s) && w.s.queue[0].spec.id !in w.s.running && |w.started| !in w.awaited
    ensures var w' := Run(w, events);
            w'.s.queue == w.s.queue[1..] && w'.s.running == w.s.running && w'.awaited == w.awaited &&
            !w'.s.stopped && w'.dropped == w.dropped
  {
    var n, id, w' := |w.started|, w.s.queue[0].spec.id, Step(w, TurnLoop(1, 0));
    StartShape(w);
    ExitLeaves(w', n);
    AddedAndRemoved(w.s.running, w'.s.running, id);
    assert w.awaited[n := id] - {n} == w.awaited;
    RunOfOne(w, TurnLoop(1, 0));
    RunOfOne(w', DeliverExit(n, 0, 0));
    RunOfAppend(w, [TurnLoop(1, 0)], [DeliverExit(n, 0, 0)]);
    events := [TurnLoop(1, 0)] + [DeliverExit(n, 0, 0)];
  }

  lemma ReadyToStart(w: World, total: Size, jobs: seq<PendingJob>)
    requires Inv(w, total, jobs) && total >= 4 && !w.s.stopped && w.s.queue != []
    requires w.s.running.Keys == StuckJobs(w)
    ensures LanesSafe(w.s) && Starts(w.s) && w.s.queue[0].spec.id !in w.s.running && |w.started| !in w.awaited
  {
    PlacedMeansApart(w, Elements(Ids(jobs)));
    RoomBesideStuck(w);
  }

  lemma DrainOne(w: World) returns (events: seq<Event>)
    requires LanesSafe(w.s) && Starts(w.s) && w.s.queue[0].spec.id !in w.s.running && |w.started| !in w.awaited
    ensures var w' := Run(w, events);
            w'.s.queue == w.s.queue[1..] && w'.s.running.Keys == w.s.running.Keys &&
            StuckJobs(w') == StuckJobs(w) && !w'.s.stopped && w'.dropped == w.dropped
  {
    events := StartAndFinish(w);
  }

  lemma {:induction false} DrainQueue(w: World, total: Size, jobs: seq<PendingJob>) returns (events: seq<Event>)
    requires Inv(w, total, jobs) && total >= 4 && !w.s.stopped
    requires w.s.running.Keys == StuckJobs(w)
    ensures var w' := Run(w, events);
            w'.s.queue == [] && w'.s.running.Keys == StuckJobs(w) && w'.dropped == w.dropped
    decreases |w.s.queue|
  {
    if w.s.queue == [] {
      events := [];
    } else {
      ReadyToStart(w, total, jobs);
      var before := DrainOne(w);
      RunKeeps(w, total, jobs, before);
      var more := DrainQueue(Run(w, before), total, jobs);
      events := before + more;
      RunOfAppend(w, before, more);
    }
  }

  lemma DrainAll(w: World, total: Size, jobs: seq<PendingJob>) returns (events: seq<Event>)
    requires Inv(w, total, jobs) && total >= 4 && !w.s.stopped
    ensures var w' := Run(w, events);
            w'.s.queue == [] && w'.s.running.Keys == StuckJobs(w) && w'.dropped == w.dropped
  {
    var before := LetAllLeave(w, total, jobs);
    RunKeeps(w, total, jobs, before);
    var more := DrainQueue(Run(w, before), total, jobs);
    events := before + more;
    RunOfAppend(w, before, more);
  }

  /** From every unstopped state some continuation empties the queue and finishes every job that
      is neither dropped already nor stuck. */
  lemma AllButStuckCanFinish(w: World, total: Size, jobs: seq<PendingJob>) returns (events: seq<Event>)
    requires Reachable(w, total, jobs) && total >= 4 && !w.s.stopped
    ensures var w' := Run(w, events);
            w'.s.queue == [] && w'.s.running.Keys == StuckJobs(w) && w'.dropped == w.dropped
    ensures forall id :: id in Ids(jobs) ==>
              id in Run(w, events).s.store || id in w.dropped || id in StuckJobs(w)
  {
    ReachableKeeps(w, total, jobs);
    events := DrainAll(w, total, jobs);
    PlacesAfter(w, total, jobs, events);
    FinishedByElimination(Run(w, events), Ids(jobs));
  }

  lemma FinishedByElimination(w: World, ids: seq<string>)
    requires Placed(w, Elements(ids)) && w.s.queue == []
    ensures forall id :: id in ids ==> id in w.s.store || id in w.dropped || id in w.s.running
  {
    forall id | id in ids ensures id in w.s.store || id in w.dropped || id in w.s.running {
      assert id in Elements(ids);
    }
  }

  const NO_OPTIONS := ProcessOptions("", [], map[], false)

  const JOB := JobSpec("job", NO_OPTIONS)

  /** A SLOW job whose first spawn fails is stuck from the start. */
  lemma FailedSpawnSticks()
    ensures Stuck(Step(Initial(4, [PendingJob(JOB, SLOW)]), TurnLoop(-1, 0)), "job")
  {
  }

  function SlowJob(id: string): PendingJob {
    PendingJob(JobSpec(id, NO_OPTIONS), SLOW)
  }

  const FOUR_SLOW_JOBS := [SlowJob("a"), SlowJob("b"), SlowJob("c"), SlowJob("d")]

  /** On four slots with the FAST one free, the next SLOW job takes a slow slot, or the FAST one. */
  lemma SlowStart(w: World, id: string, pid: int)
    requires w.s.total == 4 && !w.s.stopped && w.s.fast == 0 && w.s.slow <= 3
    requires w.s.queue != [] && w.s.queue[0] == SlowJob(id) && id !in w.s.running
    ensures var w' := Step(w, TurnLoop(pid, 0));
            w'.s.total == 4 && !w'.s.stopped && w'.s.queue == w.s.queue[1..] &&
            w'.s.running.Keys == w.s.running.Keys + {id} &&
            if w.s.slow < 3 then w'.s.fast == 0 && w'.s.slow == w.s.slow + 1 else w'.s.running[id].lane == FAST
  {
    assert Tick(w.s, pid, |w.started|, 0).running.Keys == w.s.running.Keys + {id};
  }

  /** Four SLOW jobs on four slots: the fourth starts in the FAST lane, although the slow lane
      is full and the half-lane test fails. */
  lemma HalfLaneIsBorrowed()
    ensures var w := Run(Initial(4, FOUR_SLOW_JOBS), [TurnLoop(1, 0), TurnLoop(2, 0), TurnLoop(3, 0)]);
            FailsHalfLaneTest(w.s) && w.s.queue == [SlowJob("d")] &&
            var w' := Step(w, TurnLoop(4, 0));
            "d" in w'.s.running && w'.s.running["d"].lane == FAST
  {
    var w := Initial(4, FOUR_SLOW_JOBS);
    var w1 := Step(w, TurnLoop(1, 0));
    var w2 := Step(w1, TurnLoop(2, 0));
    var w3 := Step(w2, TurnLoop(3, 0));
    RunOfThree(w, TurnLoop(1, 0), TurnLoop(2, 0), TurnLoop(3, 0));
    SlowStart(w, "a", 1);
    SlowStart(w1, "b", 2);
    SlowStart(w2, "c", 3);
    SlowStart(w3, "d", 4);
  }

  /** A job whose first run is killed by its timer, before that run's exit is delivered. */
  lemma KilledRun() returns (w: World)
    ensures w == Step(Step(Step(Initial(4, [PendingJob(JOB, FAST)]), TurnLoop(7, 0)), ExpireTimer(0)), DeliverTimer(0))
    ensures w == World(State(4, false, [PendingJob(JOB, SLOW)], map[], map[], 0, 0, []),
                       map[0 := "job"], map[], map[], ["job"], [Spawn(7, 0)], map["job" := 0], ["job"], [], [])
  {
    var w1 := Step(Initial(4, [PendingJob(JOB, FAST)]), TurnLoop(7, 0));
    assert w1.s.running["job"] == RunningJob(JOB, FAST, 7, 0, Timer(0));
    assert w1.s.queue == [] && w1.s.fast == 1 && w1.started == ["job"];
    var w2 := Step(w1, ExpireTimer(0));
    assert w2.expired == map[0 := "job"] && w2.armed == map[];
    w := Step(w2, DeliverTimer(0));
    assert w.s.running == map[] && w.expired == map[];
  }

  lemma LateExit(w: World)
    requires w == World(State(4, false, [PendingJob(JOB, SLOW)], map[], map[], 0, 0, []),
                        map[0 := "job"], map[], map[], ["job"], [Spawn(7, 0)], map["job" := 0], ["job"], [], [])
    ensures var w' := Step(Step(Step(w, TurnLoop(8, 1)), DeliverExit(0, 9, 2)), DeliverExit(1, 0, 3));
            w'.dropped == ["job"] && w'.finished == [] && w'.s.store == map[] && w'.s.running == map[]
  {
    var w1 := Step(w, TurnLoop(8, 1));
    assert w1.s.running["job"] == RunningJob(JOB, SLOW, 8, 1, NoTimer);
    assert w1.awaited == map[0 := "job", 1 := "job"];
    var w2 := Step(w1, DeliverExit(0, 9, 2));
    assert w2.dropped == ["job"] && w2.s.running == map[] && w2.awaited == map[1 := "job"];
  }

  /** A FAST job is started, runs out of time, is queued again and started again; then the
      exits of its killed first process and of its second one arrive, the latter normal. */
  const LATE_EXIT_RUN :=
    [TurnLoop(7, 0), ExpireTimer(0), DeliverTimer(0), TurnLoop(8, 1), DeliverExit(0, 9, 2), DeliverExit(1, 0, 3)]

  /** The exit of a killed run ends the next run of the same job: the job is dropped while its
      second process lives, and that process's own normal exit is not stored. */
  lemma LateExitDropsTheNextRun()
    ensures var w := Run(Initial(4, [PendingJob(JOB, FAST)]), LATE_EXIT_RUN);
            w.dropped == ["job"] && w.finished == [] && w.s.store == map[] && w.s.running == map[]
  {
    var w0 := Initial(4, [PendingJob(JOB, FAST)]);
    var w3 := KilledRun();
    RunOfThree(w0, TurnLoop(7, 0), ExpireTimer(0), DeliverTimer(0));
    RunOfThree(w3, TurnLoop(8, 1), DeliverExit(0, 9, 2), DeliverExit(1, 0, 3));
    RunOfAppend(w0, LATE_EXIT_RUN[..3], LATE_EXIT_RUN[3..]);
    assert LATE_EXIT_RUN[..3] == [TurnLoop(7, 0), ExpireTimer(0), DeliverTimer(0)];
    assert LATE_EXIT_RUN[3..] == [TurnLoop(8, 1), DeliverExit(0, 9, 2), DeliverExit(1, 0, 3)];
    assert LATE_EXIT_RUN[..3] + LATE_EXIT_RUN[3..] == LATE_EXIT_RUN;
    LateExit(w3);
  }

  /** With an id submitted twice, the counters run ahead of the table. */
  lemma DuplicateIdLosesASlot()
    ensures var job := PendingJob(JOB, FAST);
            var w := Run(Initial(4, [job, job]), [TurnLoop(7, 0), TurnLoop(8, 1)]);
            w.s.fast + w.s.slow == 2 && |w.s.running| == 1
  {
  }

  // ---------------------------------------------------------------- repeated ids

  /** After k starts, only job i is still running, if it was among them. */
  predicate OnlyRunning(w: World, total: Size, jobs: seq<PendingJob>, i: nat, k: nat)
    requires i < |jobs| && k <= |jobs|
  {
    w.s.total == total && !w.s.stopped && w.s.queue == jobs[k..] && |w.started| == k && LanesSafe(w.s) &&
    (forall id :: id in w.s.running ==> w.s.running[id].spec.id == id) &&
    w.s.running.Keys == if k > i then {jobs[i].spec.id} else {}
  }

  lemma RoomForOne(s: State, id: string)
    requires LanesSafe(s) && s.total >= 4 && s.running.Keys <= {id}
    ensures HasFreeSlot(s)
  {
    FreeSlotMeansRoom(s);
    SubsetSize(s.running.Keys, {id});
    assert |s.running| == |s.running.Keys|;
  }

  lemma StartShape(w: World)
    requires Starts(w.s) && LanesSafe(w.s) && w.s.queue[0].spec.id !in w.s.running
    ensures var w', id := Step(w, TurnLoop(1, 0)), w.s.queue[0].spec.id;
            w'.s.total == w.s.total && !w'.s.stopped && w'.s.queue == w.s.queue[1..] && LanesSafe(w'.s) &&
            w'.dropped == w.dropped && |w'.started| == |w.started| + 1 && w'.awaited == w.awaited[|w.started| := id] &&
            w'.s.running.Keys == w.s.running.Keys + {id} && w'.s.running[id].spec.id == id &&
            forall other :: other in w.s.running ==> w'.s.running[other] == w.s.running[other]
  {
    TickFrame(w.s, 1, |w.started|, 0);
    TickKeepsLanes(w.s, 1, |w.started|, 0);
    assert Tick(w.s, 1, |w.started|, 0).running.Keys == w.s.running.Keys + {w.s.queue[0].spec.id};
  }

  lemma FinishOne(w: World, run: nat)
    requires LanesSafe(w.s) && run in w.awaited && w.awaited[run] in w.s.running
    ensures var w' := Step(w, DeliverExit(run, 0, 0));
            w'.s.total == w.s.total && w'.s.stopped == w.s.stopped && w'.s.queue == w.s.queue &&
            w'.started == w.started && w'.dropped == w.dropped && LanesSafe(w'.s) &&
            w'.awaited == w.awaited - {run} && w'.s.running == w.s.running - {w.awaited[run]}
  {
    ReleaseKeepsLanes(w.s, w.awaited[run]);
    ExitLeaves(w, run);
  }

  /** Start one more job, and let it finish unless it is job i. */
  lemma OneMore(w: World, total: Size, jobs: seq<PendingJob>, i: nat, k: nat) returns (events: seq<Event>)
    requires total >= 4 && i < |jobs| && k < |jobs| && OnlyRunning(w, total, jobs, i, k)
    requires k > i ==> jobs[k].spec.id != jobs[i].spec.id
    ensures OnlyRunning(Run(w, events), total, jobs, i, k + 1)
  {
    RoomForOne(w.s, jobs[i].spec.id);
    assert w.s.queue[0] == jobs[k] && w.s.queue[1..] == jobs[k + 1..];
    StartShape(w);
    var w' := Step(w, TurnLoop(1, 0));
    events := [TurnLoop(1, 0)];
    RunOfOne(w, TurnLoop(1, 0));
    if k != i {
      FinishOne(w', k);
      RunOfOne(w', DeliverExit(k, 0, 0));
      RunOfAppend(w, events, [DeliverExit(k, 0, 0)]);
      events := events + [DeliverExit(k, 0, 0)];
      assert w'.s.running.Keys - {jobs[k].spec.id} == w.s.running.Keys;
    }
  }

  lemma {:induction false} KeepOneRunning(total: Size, jobs: seq<PendingJob>, i: nat, k: nat)
    returns (events: seq<Event>)
    requires total >= 4 && i < |jobs| && k <= |jobs|
    requires Distinct(Ids(jobs)[..k])
    ensures OnlyRunning(Run(Initial(total, jobs), events), total, jobs, i, k)
    decreases k
  {
    if k == 0 {
      events := [];
      assert InLane(map[], FAST) == {} && InLane(map[], SLOW) == {};
    } else {
      var n := k - 1;
      assert forall a :: 0 <= a < n ==> Ids(jobs)[..n][a] == Ids(jobs)[..k][a];
      assert i < n ==> Ids(jobs)[..k][i] != Ids(jobs)[..k][n];
      var before := KeepOneRunning(total, jobs, i, n);
      var more := OneMore(Run(Initial(total, jobs), before), total, jobs, i, n);
      events := before + more;
      RunOfAppend(Initial(total, jobs), before, more);
    }
  }

  lemma {:induction false} FirstRepeat(ids: seq<string>) returns (i: nat, j: nat)
    requires !Distinct(ids)
    ensures i < j < |ids| && ids[i] == ids[j] && Distinct(ids[..j])
  {
    var n := |ids| - 1;
    if Distinct(ids[..n]) {
      forall a, b | 0 <= a < b < n ensures ids[a] != ids[b] {
        assert ids[..n][a] != ids[..n][b];
      }
      i, j :| 0 <= i < j < |ids| && ids[i] == ids[j];
    } else {
      i, j := FirstRepeat(ids[..n]);
      assert ids[..n][..j] == ids[..j];
    }
  }

  ghost predicate AlwaysSafe(total: Size, jobs: seq<PendingJob>) {
    forall events :: LanesSafe(Run(Initial(total, jobs), events).s)
  }

  /** The counters are right over all runs exactly when the submitted ids are distinct. */
  lemma SafeExactlyForDistinctIds(total: Size, jobs: seq<PendingJob>)
    requires total >= 4
    ensures AlwaysSafe(total, jobs) <==> Distinct(Ids(jobs))
  {
    if Distinct(Ids(jobs)) {
      forall events ensures LanesSafe(Run(Initial(total, jobs), events).s) {
        ReachableKeeps(Run(Initial(total, jobs), events), total, jobs);
      }
    } else {
      var i, j := FirstRepeat(Ids(jobs));
      var events := KeepOneRunning(total, jobs, i, j);
      var w := Run(Initial(total, jobs), events);
      assert w.s.queue[0] == jobs[j] && jobs[j].spec.id in w.s.running;
      FreeSlotMeansRoom(w.s);
      assert |w.s.running| == |w.s.running.Keys| == 1;
      TickKeepsLanes(w.s, 1, |w.started|, 0);
      RunOfAppend(Initial(total, jobs), events, [TurnLoop(1, 0)]);
      RunOfOne(w, TurnLoop(1, 0));
      assert !LanesSafe(Run(Initial(total, jobs), events + [TurnLoop(1, 0)]).s);
    }
  }
}
