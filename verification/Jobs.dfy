/** The records the scheduler moves about, and the two containers it owns
    (process/aps_pending_queue.cpp, process/aps_finished_storage.cpp). */
module Jobs {

  datatype Lane = FAST | SLOW

  datatype ProcessOptions = ProcessOptions(exe: string, args: seq<string>, envs: map<string, string>, interactive: bool)

  datatype JobSpec = JobSpec(id: string, opts: ProcessOptions)

  datatype PendingJob = PendingJob(spec: JobSpec, lane: Lane)

  datatype TimerRef = NoTimer | Timer(number: nat)

  /** `timer` names the timer object the entry owns, by the number of the start that armed it. */
  datatype RunningJob = RunningJob(spec: JobSpec, lane: Lane, pid: int, startTime: int, timer: TimerRef)

  datatype FinishedJob = FinishedJob(spec: JobSpec, startTime: int, endTime: int, exitCode: int)

  /** A default-constructed record, what a failed lookup returns. */
  const NO_JOB := FinishedJob(JobSpec("", ProcessOptions("", [], map[], false)), 0, 0, -1)

  class PendingQ {
    var q: seq<PendingJob>

    constructor (jobs: seq<PendingJob>)
      ensures q == jobs
    {
      q := jobs;
    }

    method Empty() returns (empty: bool)
      ensures empty <==> q == []
    {
      empty := |q| == 0;
    }

    method Push(pj: PendingJob)
      modifies this
      ensures q == old(q) + [pj]
    {
      q := q + [pj];
    }

    method Front() returns (pj: PendingJob)
      requires q != []
      ensures pj == q[0]
    {
      pj := q[0];
    }

    method Pop() returns (pj: PendingJob)
      requires q != []
      modifies this
      ensures old(q) == [pj] + q
    {
      pj := q[0];
      q := q[1..];
    }
  }

  class FinishedStorage {
    var sink: map<string, FinishedJob>

    constructor ()
      ensures sink == map[]
    {
      sink := map[];
    }

    /** `emplace`: the first record stored under an id stays. */
    method Store(fj: FinishedJob)
      modifies this
      ensures sink == map[fj.spec.id := fj] + old(sink)
    {
      if fj.spec.id !in sink {
        sink := sink[fj.spec.id := fj];
      }
    }

    method Find(id: string) returns (fj: FinishedJob)
      ensures id in sink ==> fj == sink[id]
      ensures id !in sink ==>
                fj == FinishedJob(JobSpec("", ProcessOptions("", [], map[], false)), 0, 0, -1)
    {
      if id !in sink {
        return NO_JOB;
      }
      return sink[id];
    }
  }
}
