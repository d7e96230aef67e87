/**
 * The worker pool of Source/threadpool.h as a sequential state machine.
 *
 * Every critical section the source runs under `queue_mutex` is one atomic
 * method here; the threads, the mutex and the condition variable are not
 * modelled.  A worker's `for (;;)` body is split at the point where the
 * lock is released: one step takes the front task (or sleeps, or returns),
 * the next step is the task's execution, after which the task's future is
 * ready.
 *
 * The future returned by `enqueue` is represented by a ticket: the number of
 * tasks submitted before it.  `ready` is the set of tickets whose task has
 * run.
 */
module Pool {

  /** A queued task together with the ticket of its future. */
  datatype Job<T> = Job(ticket: nat, work: T)

  /** Where one worker thread stands in its loop. */
  datatype WorkerState<T> =
    | Waiting             // inside the locked block, at the condition wait
    | Running(job: Job<T>) // the lock is released and the task is executing
    | Exited              // the thread function has returned

  /** What one step of a worker did. */
  datatype StepResult<T> =
    | Sleeps               // `stop || !tasks.empty()` is false: it stays blocked
    | Returns              // `stop && tasks.empty()`: the thread function returns
    | Takes(job: Job<T>)   // the front task was moved out of the queue
    | Completes(ticket: nat) // the task returned, its future is ready
    | Gone                 // the thread had already returned

  /** The outcome of `enqueue`: a future or the `runtime_error` it throws. */
  datatype Submission = Submitted(future: nat) | StoppedError

  /** Job `j` is executing on one of the workers `ws`. */
  ghost predicate RunsOn<T>(ws: seq<WorkerState<T>>, j: Job<T>)
  {
    exists w :: 0 <= w < |ws| && ws[w] == Running(j)
  }

  lemma RunsOnAppend<T>(ws: seq<WorkerState<T>>, j: Job<T>, more: seq<WorkerState<T>>)
    requires RunsOn(ws, j)
    ensures RunsOn(ws + more, j)
  {
    var w :| 0 <= w < |ws| && ws[w] == Running(j);
    assert (ws + more)[w] == Running(j);
  }

  lemma RunsOnUpdate<T>(ws: seq<WorkerState<T>>, j: Job<T>, v: nat, x: WorkerState<T>)
    requires RunsOn(ws, j)
    requires v < |ws| && ws[v] != Running(j)
    ensures RunsOn(ws[v := x], j)
  {
    var w :| 0 <= w < |ws| && ws[w] == Running(j);
    assert ws[v := x][w] == Running(j);
  }

  /** Once every worker has returned, no job runs anywhere. */
  lemma NoneRunning<T>(ws: seq<WorkerState<T>>, j: Job<T>)
    requires forall w :: 0 <= w < |ws| ==> ws[w] == Exited
    ensures !RunsOn(ws, j)
  {
  }

  class ThreadPool<T> {
    var workers: seq<WorkerState<T>>
    var tasks: seq<Job<T>>
    var stop: bool
    var nextTicket: nat
    var ready: set<nat>

    /** Every task ever accepted by `Enqueue`, in order. */
    ghost var submitted: seq<Job<T>>
    /** Every task ever moved out of the queue by a worker, in order. */
    ghost var taken: seq<Job<T>>

    ghost predicate Valid()
      reads this
    {
      // the tickets are handed out in order
      && |submitted| == nextTicket
      && (forall i :: 0 <= i < |submitted| ==> submitted[i].ticket == i)
      // FIFO and no task lost or duplicated: taken first, then what is queued
      && submitted == taken + tasks
      && (forall i :: 0 <= i < |taken| ==> taken[i].ticket == i)
      // a worker has returned only after stop, and only with an empty queue
      && (forall w :: 0 <= w < |workers| && workers[w].Exited? ==> stop && tasks == [])
      // a running task has been taken and its future is not ready yet
      && (forall w :: 0 <= w < |workers| && workers[w].Running? ==>
            workers[w].job.ticket < |taken| && taken[workers[w].job.ticket] == workers[w].job
            && workers[w].job.ticket !in ready)
      // no task runs on two workers
      && (forall v, w :: 0 <= v < w < |workers| && workers[v].Running? && workers[w].Running? ==>
            workers[v].job.ticket != workers[w].job.ticket)
      // a future is ready exactly when its task was taken and has finished
      && (forall t :: t in ready ==> t < |taken|)
      && (forall t :: 0 <= t < |taken| && t !in ready ==> RunsOn(workers, taken[t]))
    }

    /** `ThreadPool()`: not stopped, no tasks, no workers. */
    constructor ()
      ensures Valid()
      ensures !stop && tasks == [] && workers == []
      ensures nextTicket == 0 && ready == {} && submitted == [] && taken == []
    {
      workers, tasks, stop := [], [], false;
      nextTicket, ready := 0, {};
      submitted, taken := [], [];
    }

    /** `start(threads)`: appends `threads` workers, each waiting for work. */
    method Start(threads: nat)
      requires Valid()
      modifies this
      ensures Valid()
      ensures workers == old(workers) + seq(threads, _ => Waiting)
      ensures tasks == old(tasks) && stop == old(stop)
      ensures nextTicket == old(nextTicket) && ready == old(ready)
      ensures submitted == old(submitted) && taken == old(taken)
    {
      var i := 0;
      while i < threads
        invariant 0 <= i <= threads
        invariant Valid()
        invariant workers == old(workers) + seq(i, _ => Waiting)
        invariant tasks == old(tasks) && stop == old(stop)
        invariant nextTicket == old(nextTicket) && ready == old(ready)
        invariant submitted == old(submitted) && taken == old(taken)
      {
        forall t | 0 <= t < |taken| && t !in ready ensures RunsOn(workers + [Waiting], taken[t]) {
          RunsOnAppend(workers, taken[t], [Waiting]);
        }
        workers := workers + [Waiting];
        i := i + 1;
      }
    }
  
    /** `enqueue`: throws once `stop` is set, leaving everything as it was;
        otherwise appends one task at the back of the queue and returns its
        future. */
    method Enqueue(work: T) returns (r: Submission)
      requires Valid()
      modifies this
      ensures Valid()
      ensures old(stop) ==> r == StoppedError && tasks == old(tasks)
                            && nextTicket == old(nextTicket) && submitted == old(submitted)
      ensures !old(stop) ==> r == Submitted(old(nextTicket))
                             && tasks == old(tasks) + [Job(old(nextTicket), work)]
                             && nextTicket == old(nextTicket) + 1
                             && submitted == old(submitted) + [Job(old(nextTicket), work)]
      ensures workers == old(workers) && stop == old(stop) && ready == old(ready) && taken == old(taken)
    {
      if stop {
        return StoppedError;
      }
      var job := Job(nextTicket, work);
      tasks := tasks + [job];
      submitted := submitted + [job];
      r := Submitted(nextTicket);
      nextTicket := nextTicket + 1;
    }

    /** One step of worker `w`'s loop.  A waiting worker may only go on when
        `stop || !tasks.empty()`; it returns when `stop && tasks.empty()`
        and otherwise moves the front task out of the queue.  A running
        worker finishes its task, whose future becomes ready. */
    method Step(w: nat) returns (r: StepResult<T>)
      requires Valid()
      requires w < |workers|
      modifies this
      ensures Valid()
      ensures stop == old(stop) && nextTicket == old(nextTicket) && submitted == old(submitted)
      ensures |workers| == |old(workers)|
      ensures forall v :: 0 <= v < |workers| && v != w ==> workers[v] == old(workers)[v]
      ensures old(workers)[w].Waiting? && !old(stop) && old(tasks) == [] ==>
                r == Sleeps && workers == old(workers) && tasks == old(tasks)
                && taken == old(taken) && ready == old(ready)
      ensures old(workers)[w].Waiting? && old(stop) && old(tasks) == [] ==>
                r == Returns && workers[w] == Exited && tasks == old(tasks)
                && taken == old(taken) && ready == old(ready)
      ensures old(workers)[w].Waiting? && old(tasks) != [] ==>
                r == Takes(old(tasks)[0]) && workers[w] == Running(old(tasks)[0])
                && tasks == old(tasks)[1..] && taken == old(taken) + [old(tasks)[0]]
                && ready == old(ready)
      ensures old(workers)[w].Running? ==>
                r == Completes(old(workers)[w].job.ticket) && workers[w] == Waiting
                && tasks == old(tasks) && taken == old(taken)
                && ready == old(ready) + {old(workers)[w].job.ticket}
      ensures old(workers)[w].Exited? ==>
                r == Gone && workers == old(workers) && tasks == old(tasks)
                && taken == old(taken) && ready == old(ready)
    {
      match workers[w]
      case Waiting =>
        if !(stop || tasks != []) {
          r := Sleeps;
        } else if stop && tasks == [] {
          Exit(w);
          r := Returns;
        } else {
          r := Take(w);
        }
      case Running(job) =>
        r := Finish(w);
      case Exited =>
        r := Gone;
    }

    /** `stop && tasks.empty()` for a waiting worker: its thread function
        returns. */
    method Exit(w: nat)
      requires Valid()
      requires w < |workers| && workers[w].Waiting? && stop && tasks == []
      modifies this
      ensures Valid()
      ensures workers == old(workers)[w := Exited]
      ensures tasks == old(tasks) && stop == old(stop) && nextTicket == old(nextTicket)
      ensures ready == old(ready) && submitted == old(submitted) && taken == old(taken)
    {
      forall t | 0 <= t < |taken| && t !in ready ensures RunsOn(workers[w := Exited], taken[t]) {
        RunsOnUpdate(workers, taken[t], w, Exited);
      }
      workers := workers[w := Exited];
    }

    /** A waiting worker with a non-empty queue moves the front task out of
        the queue and runs it with the lock released. */
    method Take(w: nat) returns (r: StepResult<T>)
      requires Valid()
      requires w < |workers| && workers[w].Waiting? && tasks != []
      modifies this
      ensures Valid()
      ensures r == Takes(old(tasks)[0])
      ensures workers == old(workers)[w := Running(old(tasks)[0])]
      ensures tasks == old(tasks)[1..] && taken == old(taken) + [old(tasks)[0]]
      ensures stop == old(stop) && nextTicket == old(nextTicket)
      ensures ready == old(ready) && submitted == old(submitted)
    {
      var job := tasks[0];
      assert job == submitted[|taken|];
      forall t | 0 <= t < |taken| && t !in ready ensures RunsOn(workers[w := Running(job)], taken[t]) {
        RunsOnUpdate(workers, taken[t], w, Running(job));
      }
      var ws := workers[w := Running(job)];
      assert ws[w] == Running(job);
      assert (taken + [job])[|taken|] == job;
      tasks := tasks[1..];
      taken := taken + [job];
      workers := ws;
      r := Takes(job);
    }

    /** A running worker's task returns: its future becomes ready and the
        worker goes back to waiting. */
    method Finish(w: nat) returns (r: StepResult<T>)
      requires Valid()
      requires w < |workers| && workers[w].Running?
      modifies this
      ensures Valid()
      ensures r == Completes(old(workers)[w].job.ticket)
      ensures workers == old(workers)[w := Waiting]
      ensures ready == old(ready) + {old(workers)[w].job.ticket}
      ensures tasks == old(tasks) && stop == old(stop) && nextTicket == old(nextTicket)
      ensures submitted == old(submitted) && taken == old(taken)
    {
      var job := workers[w].job;
      forall t | 0 <= t < |taken| && t !in ready + {job.ticket} ensures RunsOn(workers[w := Waiting], taken[t]) {
        assert taken[t].ticket == t;
        RunsOnUpdate(workers, taken[t], w, Waiting);
      }
      workers := workers[w := Waiting];
      ready := ready + {job.ticket};
      r := Completes(job.ticket);
    }

    /** `close()`: sets `stop` and changes nothing else, so a second call
        has no effect. */
    method Close()
      requires Valid()
      modifies this
      ensures Valid()
      ensures stop
      ensures workers == old(workers) && tasks == old(tasks) && nextTicket == old(nextTicket)
      ensures ready == old(ready) && submitted == old(submitted) && taken == old(taken)
    {
      stop := true;
    }

    /** How far worker `w` is from returning once `stop` is set. */
    ghost function Remaining(w: nat): nat
      reads this
      requires w < |workers|
    {
      match workers[w]
      case Running(_) => 2 * |tasks| + 2
      case Waiting => 2 * |tasks| + 1
      case Exited => 0
    }

    /** `worker.join()` once `stop` is set: runs worker `w` until its thread
        function returns, leaving the other workers as they are. */
    method Join(w: nat)
      requires Valid() && stop
      requires w < |workers|
      modifies this
      ensures Valid() && stop
      ensures nextTicket == old(nextTicket) && submitted == old(submitted)
      ensures |workers| == |old(workers)| && workers[w] == Exited
      ensures forall v :: 0 <= v < |workers| && v != w ==> workers[v] == old(workers)[v]
    {
      while !workers[w].Exited?
        invariant w < |workers| == |old(workers)|
        invariant Valid() && stop
        invariant nextTicket == old(nextTicket) && submitted == old(submitted)
        invariant forall v :: 0 <= v < |workers| && v != w ==> workers[v] == old(workers)[v]
        decreases Remaining(w)
      {
        var _ := Step(w);
      }
    }

    /** `~ThreadPool()`: sets `stop` under the lock, then joins every worker
        in turn.  Joining a worker runs it until its thread function returns,
        so the queue is drained before the first worker can return: once
        there is at least one worker, every future ever returned is ready. */
    method Destroy()
      requires Valid()
      modifies this
      ensures Valid()
      ensures stop && nextTicket == old(nextTicket) && submitted == old(submitted)
      ensures |workers| == |old(workers)|
      ensures forall w :: 0 <= w < |workers| ==> workers[w] == Exited
      ensures |workers| > 0 ==> tasks == [] && taken == submitted
      ensures |workers| > 0 ==> forall t :: t in ready <==> 0 <= t < nextTicket
      ensures |workers| == 0 ==> tasks == old(tasks) && ready == old(ready)
    {
      stop := true;
      var w := 0;
      while w < |workers|
        invariant 0 <= w <= |workers| == |old(workers)|
        invariant Valid() && stop
        invariant nextTicket == old(nextTicket) && submitted == old(submitted)
        invariant forall v :: 0 <= v < w ==> workers[v] == Exited
        invariant |workers| == 0 ==> tasks == old(tasks) && ready == old(ready)
      {
        Join(w);
        w := w + 1;
      }
      if |workers| > 0 {
        assert workers[0] == Exited;
        forall t | 0 <= t < nextTicket ensures t in ready {
          NoneRunning(workers, taken[t]);
        }
      }
    }
  }

  /** In a valid pool no task is taken twice and none is lost: the taken
      tasks are the oldest submitted ones, in submission order, and the
      queue holds exactly the rest. */
  lemma TakenOnce<T>(p: ThreadPool<T>)
    requires p.Valid()
    ensures forall i, j :: 0 <= i < j < |p.taken| ==> p.taken[i] != p.taken[j]
    ensures p.taken == p.submitted[..|p.taken|]
    ensures p.tasks == p.submitted[|p.taken|..]
    ensures forall i :: 0 <= i < |p.tasks| ==> p.tasks[i].ticket == |p.taken| + i
  {
    assert p.submitted == p.taken + p.tasks;
    forall i | 0 <= i < |p.tasks| ensures p.tasks[i].ticket == |p.taken| + i {
      assert p.tasks[i] == p.submitted[|p.taken| + i];
    }
  }
}
