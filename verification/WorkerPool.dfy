/**
 electron/worker-pool.js in its own form: a pool object whose event handlers update the
 queue, the counter and the `done`/`worker`/`timer` fields of job objects in place.
 Every handler is tied to the matching step of `PoolSpec`.
 */
module WorkerPool {
  import opened PoolSpec

  /** A job record. `worker` says whether a worker thread is attached, `timerArmed` whether
      its timeout can still fire. */
  class Job {
    const id: nat
    var timerArmed: bool
    var worker: bool
    var done: bool

    constructor (id: nat)
      ensures this.id == id && timerArmed && !worker && !done
    {
      this.id := id;
      timerArmed, worker, done := true, false, false;
    }
  }

  ghost function Ids(jobs: seq<Job>): (ids: seq<nat>)
    ensures |ids| == |jobs|
    ensures forall i :: 0 <= i < |jobs| ==> ids[i] == jobs[i].id
  {
    seq(|jobs|, i requires 0 <= i < |jobs| => jobs[i].id)
  }

  function WithoutId(jobs: seq<Job>, id: nat): (r: seq<Job>)
    ensures forall i :: 0 <= i < |r| ==> r[i] in jobs
  {
    if jobs == [] then [] else (if jobs[0].id == id then [] else [jobs[0]]) + WithoutId(jobs[1..], id)
  }

  lemma {:induction false} WithoutIdIds(jobs: seq<Job>, id: nat)
    ensures Ids(WithoutId(jobs, id)) == Without(Ids(jobs), id)
  {
    if jobs != [] {
      WithoutIdIds(jobs[1..], id);
      assert Ids(jobs)[1..] == Ids(jobs[1..]);
    }
  }

  class WorkerPool {
    const maxWorkers: nat
    var queue: seq<Job>
    var active: int
    var idCounter: nat
    ghost var jobs: seq<Job>          // every job ever submitted, jobs[i] has id i + 1
    ghost var started: seq<nat>
    ghost var settled: seq<Settlement>

    ghost function View(): Pool
      reads this
    {
      Pool(maxWorkers, Ids(queue), active, idCounter, started, settled)
    }

    ghost predicate Coupled()
      reads this, jobs
    {
      && |jobs| == idCounter
      && (forall i :: 0 <= i < |jobs| ==> jobs[i].id == i + 1)
      && (forall j :: j in queue ==> j in jobs)
      && (forall j :: j in jobs ==> (j.done <==> j.id in DoneIds(settled)))
      && (forall j :: j in jobs ==> (j.worker <==> j.id in started))
      && (forall j :: j in jobs ==> (j.timerArmed <==> !j.done))
    }

    ghost predicate Valid()
      reads this, jobs
    {
      Coupled() && Inv(View())
    }

    constructor (maxWorkers: nat)
      ensures Valid() && View() == Init(maxWorkers) && jobs == []
    {
      this.maxWorkers := maxWorkers;
      queue, active, idCounter := [], 0, 0;
      jobs, started, settled := [], [], [];
      new;
      hide Inv;
      InitKeepsInv(maxWorkers);
    }

    /** Submits a job; its timer is armed before the job is queued. */
    method Exec() returns (job: Job)
      requires Valid()
      modifies this, jobs
      ensures Valid() && fresh(job) && jobs == old(jobs) + [job] && job.id == idCounter
      ensures View() == Step(old(View()), Submit)
    {
      NextIdUnused(View());
      StepKeepsInv(View(), Submit);
      job := Enqueue();
      ProcessNext();
    }

    method Enqueue() returns (job: Job)
      requires Coupled() && idCounter + 1 !in DoneIds(settled) && idCounter + 1 !in started
      modifies this`idCounter, this`queue, this`jobs
      ensures Coupled() && fresh(job) && jobs == old(jobs) + [job] && job.id == idCounter
      ensures View() == old(View()).(idCounter := idCounter, queue := old(Ids(queue)) + [idCounter])
      ensures idCounter == old(idCounter) + 1
    {
      idCounter := idCounter + 1;
      job := new Job(idCounter);
      jobs := jobs + [job];
      queue := queue + [job];
    }

    /** The timeout callback. A started job gives its slot back, a waiting one leaves the queue. */
    method OnTimeout(job: Job)
      requires Valid() && job in jobs
      modifies this, jobs
      ensures Valid() && jobs == old(jobs) && job.done
      ensures View() == Step(old(View()), Timer(job.id))
    {
      hide Inv, DoneIds, Without;
      StepKeepsInv(View(), Timer(job.id));
      if job.done { return; }
      MarkDone(job, TimedOut);
      if job.worker {
        active := Max(0, active - 1);
        ProcessNext();
      } else {
        Cleanup(job.id);
      }
    }

    /** Sets the `done` flag, disarms the timer and settles the promise. */
    method MarkDone(job: Job, outcome: Outcome)
      requires Coupled() && job in jobs && !job.done
      modifies this`settled, job`done, job`timerArmed
      ensures Coupled() && job.done
      ensures View() == Settle(old(View()), job.id, outcome)
    {
      job.done := true;
      job.timerArmed := false;
      DoneIdsAppend(settled, Settlement(job.id, outcome));
      settled := settled + [Settlement(job.id, outcome)];
    }

    method ProcessNext()
      requires Coupled()
      modifies this`queue, this`active, this`started, jobs
      ensures Coupled() && View() == PoolSpec.ProcessNext(old(View()))
      ensures forall j :: j in jobs ==> j.done == old(j.done)
    {
      if |queue| == 0 { return; }
      if active >= maxWorkers { return; }
      var job := queue[0];
      assert job in queue;
      assert Ids(queue)[1..] == Ids(queue[1..]);
      queue := queue[1..];
      active := active + 1;
      job.worker := true;
      started := started + [job.id];
    }

    /** The single path on which a started job ends. */
    method Finish(job: Job, outcome: Outcome)
      requires Valid() && job in jobs && job.worker
      modifies this, jobs
      ensures Valid() && jobs == old(jobs) && job.done
      ensures View() == PoolSpec.Finish(old(View()), job.id, outcome)
    {
      hide Inv;
      FinishKeepsInv(View(), job.id, outcome);
      if job.done { return; }
      MarkDone(job, outcome);
      active := Max(0, active - 1);
      ProcessNext();
    }

    method OnMessage(job: Job, error: string, data: string)
      requires Valid() && job in jobs && job.worker
      modifies this, jobs
      ensures Valid() && jobs == old(jobs)
      ensures View() == Step(old(View()), Message(job.id, error, data))
    {
      if error != "" { Finish(job, Failed(error)); } else { Finish(job, Resolved(data)); }
    }

    method OnError(job: Job, reason: string)
      requires Valid() && job in jobs && job.worker
      modifies this, jobs
      ensures Valid() && jobs == old(jobs)
      ensures View() == Step(old(View()), Error(job.id, reason))
    {
      Finish(job, Failed(reason));
    }

    method OnExit(job: Job, code: int)
      requires Valid() && job in jobs && job.worker
      modifies this, jobs
      ensures Valid() && jobs == old(jobs)
      ensures View() == Step(old(View()), Exit(job.id, code))
    {
      if code != 0 {
        Finish(job, Exited(code));
      }
    }

    method Cleanup(id: nat)
      modifies this`queue
      ensures queue == WithoutId(old(queue), id)
      ensures Ids(queue) == Without(old(Ids(queue)), id)
    {
      WithoutIdIds(queue, id);
      queue := WithoutId(queue, id);
    }
  }
}
