/** The scheduler as a state machine on values (process/aps_scheduler.cpp): one function per
    callback of the event loop. The class in Scheduler.dfy is proved to take exactly these
    steps; what runs of the machine keep is proved in SchedulerRuns.dfy. */
module SchedulerModel {
  import opened Jobs
  import P90

  const SIZE_LIMIT := 0x1_0000_0000_0000_0000
  const TICKS_PER_SECOND := 1_000_000_000

  /** `size_t` */
  type Size = n: int | 0 <= n < SIZE_LIMIT

  function Wrap(n: int): Size {
    n % SIZE_LIMIT
  }

  datatype State = State(
    total: Size,
    stopped: bool,
    queue: seq<PendingJob>,
    running: map<string, RunningJob>,
    store: map<string, FinishedJob>,
    fast: Size,
    slow: Size,
    samples: seq<int>)

  /** A quarter of the slots, rounded down. */
  function FastLane(total: Size): (lane: Size)
    ensures 4 * lane <= total < 4 * (lane + 1)
  {
    total / 4
  }

  function SlowLane(total: Size): (lane: Size)
    ensures 3 * total <= 4 * lane < 3 * total + 4
  {
    total - FastLane(total)
  }

  /** `WIFEXITED` on a wait status: the low seven bits are clear. */
  predicate NormalExit(status: int) {
    status % 128 == 0
  }

  /** `duration_cast<seconds>` truncates toward zero. */
  function Seconds(duration: int): int {
    if duration >= 0 then duration / TICKS_PER_SECOND else -(-duration / TICKS_PER_SECOND)
  }

  lemma SecondsTruncate(duration: int)
    ensures var seconds := Seconds(duration);
            if duration >= 0 then seconds * 1_000_000_000 <= duration < (seconds + 1) * 1_000_000_000
            else (seconds - 1) * 1_000_000_000 < duration <= seconds * 1_000_000_000
  {
  }

  predicate HasFreeSlot(s: State) {
    Wrap(s.fast + s.slow) < s.total
  }

  /** A tick starts the front job exactly under this condition. */
  predicate Starts(s: State) {
    !s.stopped && s.queue != [] && HasFreeSlot(s)
  }

  /** The lane a job is given: its own while there is room, else the other one. */
  function ActualLane(s: State, requested: Lane): (lane: Lane)
    ensures requested == FAST ==> (lane == FAST <==> 4 * (s.fast + 1) <= s.total)
    ensures requested == SLOW ==> (lane == SLOW <==> 4 * s.slow < 3 * s.total)
  {
    match requested
    case FAST => if s.fast < FastLane(s.total) then FAST else SLOW
    case SLOW => if s.slow < SlowLane(s.total) then SLOW else FAST
  }

  function Occupy(s: State, lane: Lane): State {
    match lane
    case FAST => s.(fast := Wrap(s.fast + 1))
    case SLOW => s.(slow := Wrap(s.slow + 1))
  }

  function Release(s: State, lane: Lane): State {
    match lane
    case FAST => s.(fast := Wrap(s.fast - 1))
    case SLOW => s.(slow := Wrap(s.slow - 1))
  }

  function StartEntry(pj: PendingJob, lane: Lane, pid: int, timer: nat, now: int): RunningJob {
    RunningJob(pj.spec, lane, pid, now, if lane == FAST then Timer(timer) else NoTimer)
  }

  /** One turn of the loop. `pid` is what spawning returns (-1 on failure), `timer` the number
      of the timer armed for a FAST run. Inserting a running id again changes nothing. */
  function Tick(s: State, pid: int, timer: nat, now: int): State {
    if !Starts(s) then s
    else
      var pj := s.queue[0];
      var lane := ActualLane(s, pj.lane);
      Occupy(s, lane).(queue := s.queue[1..],
                       running := map[pj.spec.id := StartEntry(pj, lane, pid, timer, now)] + s.running)
  }

  /** The exit callback of some run of the job `id`. */
  function Exit(s: State, id: string, status: int, now: int): State {
    if id !in s.running then s
    else
      var rj := s.running[id];
      var normal := NormalExit(status);
      Release(s, rj.lane).(
        running := s.running - {id},
        store := if normal then map[rj.spec.id := FinishedJob(rj.spec, rj.startTime, now, status)] + s.store
                 else s.store,
        samples := if normal then P90.Record(s.samples, P90.DEFAULT_CAPACITY, Seconds(now - rj.startTime))
                   else s.samples)
  }

  /** The timeout callback for the job `id`: kill and queue again as SLOW. */
  function Timeout(s: State, id: string): State {
    if id !in s.running then s
    else
      var rj := s.running[id];
      Release(s, rj.lane).(queue := s.queue + [PendingJob(rj.spec, SLOW)], running := s.running - {id})
  }

  /** Only exits touch the store and the estimator. */
  lemma TickFrame(s: State, pid: int, timer: nat, now: int)
    ensures var s' := Tick(s, pid, timer, now);
            s'.total == s.total && s'.stopped == s.stopped && s'.store == s.store && s'.samples == s.samples
  {
  }

  lemma TimeoutFrame(s: State, id: string)
    ensures var s' := Timeout(s, id);
            s'.total == s.total && s'.stopped == s.stopped && s'.store == s.store && s'.samples == s.samples
  {
  }

  lemma ExitFrame(s: State, id: string, status: int, now: int)
    ensures var s' := Exit(s, id, status, now);
            s'.total == s.total && s'.stopped == s.stopped && s'.queue == s.queue &&
            (id !in s.running || !NormalExit(status) ==> s'.store == s.store && s'.samples == s.samples)
  {
  }

  /** One turn in full. Stopped, with nothing waiting or with no slot free it changes nothing.
      Otherwise the front job leaves the queue for its own lane while that has room, else for the
      other one; only that lane's counter moves, and the entry owns a timer exactly when FAST. */
  lemma TurnInFull(s: State, pid: int, timer: nat, now: int)
    ensures var s' := Tick(s, pid, timer, now);
            if s.stopped || s.queue == [] || (s.fast + s.slow) % 0x1_0000_0000_0000_0000 >= s.total then s' == s
            else
              var spec, requested := s.queue[0].spec, s.queue[0].lane;
              var inFast := if requested == FAST then 4 * (s.fast + 1) <= s.total else 4 * s.slow >= 3 * s.total;
              var entry := if inFast then RunningJob(spec, FAST, pid, now, Timer(timer))
                           else RunningJob(spec, SLOW, pid, now, NoTimer);
              s'.queue == s.queue[1..] &&
              s'.running == (if spec.id in s.running then s.running else s.running[spec.id := entry]) &&
              s'.fast == (if inFast then (s.fast + 1) % 0x1_0000_0000_0000_0000 else s.fast) &&
              s'.slow == (if inFast then s.slow else (s.slow + 1) % 0x1_0000_0000_0000_0000)
  {
    TickFrame(s, pid, timer, now);
    if Starts(s) {
      var pj := s.queue[0];
      var entry := StartEntry(pj, ActualLane(s, pj.lane), pid, timer, now);
      assert pj.spec.id in s.running ==> map[pj.spec.id := entry] + s.running == s.running;
      assert pj.spec.id !in s.running ==> map[pj.spec.id := entry] + s.running == s.running[pj.spec.id := entry];
    }
  }

  /** A wait status of an exit carries the code in its second byte; one of a death by a signal
      carries the signal in the low seven bits, and a core dump in the next one. */
  lemma WaitStatuses(code: int, signal: int, higher: nat)
    requires 0 <= code <= 255 && 1 <= signal <= 127
    ensures NormalExit(256 * code) && !NormalExit(signal + 128 * higher)
  {
  }

  /** A job that exits with any code is stored, and the whole seconds it ran are recorded among
      the latest 1000 samples if there is at least one. */
  lemma ExitWithCode(s: State, id: string, code: int, now: int)
    requires id in s.running && s.running[id].spec.id == id && id !in s.store && |s.samples| <= 1000
    requires 0 <= code <= 255
    ensures var s', rj := Exit(s, id, 256 * code, now), s.running[id];
            var took := now - rj.startTime;
            s'.running == s.running - {id} &&
            s'.store == s.store[id := FinishedJob(rj.spec, rj.startTime, now, 256 * code)] &&
            s'.samples ==
              if took < 1_000_000_000 then s.samples
              else (if |s.samples| == 1000 then s.samples[1..] else s.samples) + [took / 1_000_000_000]
  {
    WaitStatuses(code, 1, 0);
    var rj := s.running[id];
    var fj := FinishedJob(rj.spec, rj.startTime, now, 256 * code);
    assert map[id := fj] + s.store == s.store[id := fj];
    assert s.samples + [] == s.samples;
  }

  /** A job that a signal kills leaves no record and no sample, with a core dump or without. */
  lemma ExitBySignal(s: State, id: string, signal: int, higher: nat, now: int)
    requires id in s.running && 1 <= signal <= 127
    ensures var s' := Exit(s, id, signal + 128 * higher, now);
            s'.running == s.running - {id} && s'.store == s.store && s'.samples == s.samples
  {
    WaitStatuses(0, signal, higher);
  }

  // ---------------------------------------------------------------- lanes

  function InLane(running: map<string, RunningJob>, lane: Lane): set<string> {
    set id | id in running && running[id].lane == lane
  }

  /** The counters are the numbers of running jobs in each lane. */
  predicate CountersAgree(s: State) {
    s.fast == |InLane(s.running, FAST)| && s.slow == |InLane(s.running, SLOW)|
  }

  /** ... and no lane is over its share. */
  predicate LanesSafe(s: State) {
    CountersAgree(s) && s.fast <= FastLane(s.total) && s.slow <= SlowLane(s.total)
  }

  lemma LanesPartition(running: map<string, RunningJob>)
    ensures |InLane(running, FAST)| + |InLane(running, SLOW)| == |running|
  {
    assert InLane(running, FAST) + InLane(running, SLOW) == running.Keys;
  }

  lemma InLaneAdd(running: map<string, RunningJob>, id: string, rj: RunningJob, lane: Lane)
    requires id !in running
    ensures |InLane(map[id := rj] + running, lane)| == |InLane(running, lane)| + (if rj.lane == lane then 1 else 0)
  {
    assert InLane(map[id := rj] + running, lane) == InLane(running, lane) + (if rj.lane == lane then {id} else {});
  }

  lemma InLaneRemove(running: map<string, RunningJob>, id: string, lane: Lane)
    requires id in running
    ensures |InLane(running - {id}, lane)| == |InLane(running, lane)| - (if running[id].lane == lane then 1 else 0)
  {
    assert InLane(running - {id}, lane) == InLane(running, lane) - {id};
    if running[id].lane == lane {
      assert InLane(running, lane) == InLane(running - {id}, lane) + {id};
    }
  }

  /** Releasing a slot on exit or timeout keeps the lanes safe, and never underflows. */
  lemma ReleaseKeepsLanes(s: State, id: string)
    requires LanesSafe(s) && id in s.running
    ensures LanesSafe(Release(s, s.running[id].lane).(running := s.running - {id}))
    ensures s.running[id].lane == FAST ==> s.fast > 0
    ensures s.running[id].lane == SLOW ==> s.slow > 0
  {
    InLaneRemove(s.running, id, FAST);
    InLaneRemove(s.running, id, SLOW);
  }

  lemma OccupyInLanes(s: State, requested: Lane)
    requires LanesSafe(s) && HasFreeSlot(s)
    ensures var lane := ActualLane(s, requested);
            var s' := Occupy(s, lane);
            s'.fast == s.fast + (if lane == FAST then 1 else 0) <= FastLane(s.total) &&
            s'.slow == s.slow + (if lane == SLOW then 1 else 0) <= SlowLane(s.total)
  {
  }

  /** A starting tick keeps the counters right exactly when the started id is not running
      already; the lane limits hold either way. */
  lemma TickKeepsLanes(s: State, pid: int, timer: nat, now: int)
    requires LanesSafe(s)
    ensures LanesSafe(Tick(s, pid, timer, now)) <==> (Starts(s) ==> s.queue[0].spec.id !in s.running)
    ensures var s' := Tick(s, pid, timer, now); s'.fast <= FastLane(s.total) && s'.slow <= SlowLane(s.total)
  {
    if Starts(s) {
      var pj := s.queue[0];
      var lane := ActualLane(s, pj.lane);
      var s' := Tick(s, pid, timer, now);
      OccupyInLanes(s, pj.lane);
      if pj.spec.id in s.running {
        assert s'.running == s.running;
      } else {
        var rj := StartEntry(pj, lane, pid, timer, now);
        InLaneAdd(s.running, pj.spec.id, rj, FAST);
        InLaneAdd(s.running, pj.spec.id, rj, SLOW);
      }
    }
  }

  /** The test for SLOW jobs finds neither room in the slow lane nor half of the fast lane free. */
  predicate FailsHalfLaneTest(s: State) {
    !(s.slow < SlowLane(s.total) || s.fast < FastLane(s.total) / 2)
  }

  /** The half-lane test would have made a difference exactly when the slow lane is full and the
      fast lane at least half full: there a job is schedulable in spite of it. */
  lemma WhereTheHalfLaneTestFails(s: State)
    requires LanesSafe(s)
    ensures HasFreeSlot(s) && FailsHalfLaneTest(s) <==>
            s.slow == SlowLane(s.total) && FastLane(s.total) / 2 <= s.fast < FastLane(s.total)
  {
  }

  /** With the lanes safe, a free slot means fewer running jobs than slots: the half-lane test
      for SLOW jobs restricts nothing. */
  lemma FreeSlotMeansRoom(s: State)
    requires LanesSafe(s)
    ensures HasFreeSlot(s) <==> |s.running| < s.total
  {
    LanesPartition(s.running);
  }
}
