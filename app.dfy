/**
 * The page component's scheduler as the object it is: the queue of images, the
 * pool's idle flags, the active-worker counter and the accumulated results
 * live in fields that the handlers update in place. Each handler is proved
 * to perform the corresponding transition of Scheduler, so every property
 * proved there holds of this object.
 */
module App {

  import opened Wrappers
  import opened Processing
  import opened Scheduler

  class Dispatcher {
    /** `taskQueue.current` */
    var taskQueue: seq<Image>
    /** The `idle` flag of each worker that was created, in pool order. */
    const workerPool: array<bool>
    /** `activeWorkers.current` */
    var activeWorkers: int
    var results: seq<Result>
    var code: string
    var processing: bool
    var ready: bool
    /** Every image posted to a worker so far (`createCodeOutput`), in order. */
    var posted: seq<Dispatch>

    /** The page's state as a value of Scheduler. */
    function Model(): (r: State)
      reads this, workerPool
    {
      State(taskQueue, workerPool[..], activeWorkers, results, code, processing, ready, posted)
    }

    /**
     * The page after mounting, with `poolSize` workers created (creating a
     * worker can fail, so there may be fewer than MAX_WORKERS).
     */
    constructor (poolSize: nat)
      requires poolSize <= MaxWorkers
      ensures fresh(workerPool)
      ensures Model() == Initial(poolSize) && Invariant(Model())
    {
      taskQueue := [];
      workerPool := new bool[poolSize](_ => true);
      activeWorkers := 0;
      results := [];
      code := "";
      processing := false;
      ready := false;
      posted := [];
      new;
      assert workerPool[..] == seq(poolSize, _ => true);
      InitialInvariant(poolSize);
    }

    /** `workerPool.current.find(worker => worker.idle)`, as a slot index. */
    method FindIdleWorker() returns (slot: Option<nat>)
      ensures slot == FirstIdle(workerPool[..])
    {
      var i := 0;
      while i < workerPool.Length
        invariant 0 <= i <= workerPool.Length
        invariant forall j :: 0 <= j < i ==> !workerPool[j]
      {
        if workerPool[i] {
          return Some(i);
        }
        i := i + 1;
      }
      return None;
    }

    /** `processNextTask` */
    method ProcessNextTask()
      modifies this, workerPool
      ensures Model() == NextTask(old(Model()))
    {
      if |taskQueue| == 0 {
        if activeWorkers == 0 {
          processing := false;
          ready := true;
        }
        return;
      }
      var idleWorker := FindIdleWorker();
      if idleWorker.None? {
        return;
      }
      var slot := idleWorker.value;
      var task := taskQueue[0];
      taskQueue := taskQueue[1..];
      workerPool[slot] := false;
      activeWorkers := activeWorkers + 1;
      posted := posted + [Dispatch(slot, task)];
    }

    /** `handleImagesInput` */
    method HandleImagesInput(images: seq<Image>)
      modifies this, workerPool
      ensures Model() == Submit(old(Model()), images)
    {
      if |images| == 0 {
        return;
      }
      processing := true;
      ready := false;
      code := "";
      results := [];
      taskQueue := taskQueue + images;
      var tasksToStart := Min(MaxWorkers, |taskQueue|);
      ghost var start := Model();
      var i := 0;
      while i < tasksToStart
        invariant 0 <= i <= tasksToStart
        invariant Model() == NextTimes(start, i)
      {
        ProcessNextTask();
        i := i + 1;
      }
    }

    /**
     * `handleWorkerMessage` for a message posted by `sender`: a slot of the
     * pool, or any other number for a target the page does not find.
     */
    method HandleWorkerMessage(sender: int, message: WorkerMessage)
      modifies this, workerPool
      ensures Model() == Deliver(old(Model()), sender, message)
    {
      match message
      case Complete(name, encoding, width, height, data) =>
        results := results + [Result(name, encoding, width, height)];
        code := code + (if code != "" then "\n" else "") + data;
        if 0 <= sender < workerPool.Length {
          workerPool[sender] := true;
          activeWorkers := activeWorkers - 1;
          ProcessNextTask();
        }
      case Failure(_, _) =>
    }
  }
}
