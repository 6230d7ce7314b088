/**
 * The page's dispatch of images to the worker pool, as a state machine.
 *
 * Every handler of the page runs to completion on one event loop, so the
 * bookkeeping is a sequence of transitions: `processNextTask` (NextTask),
 * `handleImagesInput` (Submit) and `handleWorkerMessage` (Deliver). A worker
 * is a slot of the pool with an `idle` flag; each image posted to a worker is
 * recorded in `posted`, and a worker's reply is an input event. The class
 * App.Dispatcher carries the same state in fields and is proved to perform
 * exactly these transitions.
 */
module Scheduler {

  import opened Wrappers
  import opened Processing

  /** `MAX_WORKERS`: the size of the pool the page tries to create. */
  const MaxWorkers: nat := 4

  /** One entry of `results`: what the page shows for a finished image. */
  datatype Result = Result(name: string, encoding: string, width: int, height: int)

  /** `createCodeOutput(task, worker)`: the image posted to the worker in slot `slot`. */
  datatype Dispatch = Dispatch(slot: nat, image: Image)

  /**
   * `taskQueue`, the `idle` flags of the pool, `activeWorkers`, `results`,
   * `code`, `processing`, `ready`, and every image posted so far.
   */
  datatype State = State(
    queue: seq<Image>,
    idle: seq<bool>,
    active: int,
    results: seq<Result>,
    code: string,
    processing: bool,
    ready: bool,
    posted: seq<Dispatch>)

  /**
   * What can happen to the page: a batch of images is submitted, or the
   * worker `sender` posts a message. A sender outside the pool is a message
   * whose target the page does not find among its workers.
   */
  datatype Event = ImagesInput(images: seq<Image>) | WorkerReply(sender: int, message: WorkerMessage)

  function Min(a: int, b: int): (r: int)
  {
    if a <= b then a else b
  }

  // ---------------------------------------------------------------------
  // The pool
  // ---------------------------------------------------------------------

  /** The number of busy slots. */
  function BusyCount(idle: seq<bool>): (c: nat)
    ensures c <= |idle|
    ensures c == 0 <==> forall j :: 0 <= j < |idle| ==> idle[j]
    ensures c == |idle| <==> forall j :: 0 <= j < |idle| ==> !idle[j]
  {
    if |idle| == 0 then 0
    else
      var rest := BusyCount(idle[1..]);
      assert forall j :: 1 <= j < |idle| ==> idle[j] == idle[1..][j - 1];
      (if idle[0] then 0 else 1) + rest
  }

  /** The number of idle slots. */
  function IdleCount(idle: seq<bool>): (r: nat)
  {
    |idle| - BusyCount(idle)
  }

  /** Setting one flag changes the busy count by exactly that slot's change. */
  lemma {:induction false} BusyCountUpdate(idle: seq<bool>, w: nat, b: bool)
    requires w < |idle|
    ensures BusyCount(idle[w := b]) == BusyCount(idle) - (if idle[w] then 0 else 1) + (if b then 0 else 1)
  {
    if w == 0 {
      assert idle[w := b][1..] == idle[1..];
    } else {
      assert idle[w := b][1..] == idle[1..][w - 1 := b];
      BusyCountUpdate(idle[1..], w - 1, b);
    }
  }

  /** `workerPool.find(worker => worker.idle)`: the first idle slot, if any. */
  function FirstIdle(idle: seq<bool>): (w: Option<nat>)
    ensures w.None? <==> forall j :: 0 <= j < |idle| ==> !idle[j]
    ensures w.Some? ==> w.value < |idle| && idle[w.value] && forall j :: 0 <= j < w.value ==> !idle[j]
  {
    if |idle| == 0 then None
    else if idle[0] then Some(0)
    else
      assert forall j :: 1 <= j < |idle| ==> idle[j] == idle[1..][j - 1];
      match FirstIdle(idle[1..])
      case None => None
      case Some(k) => Some(k + 1)
  }

  // ---------------------------------------------------------------------
  // Transitions
  // ---------------------------------------------------------------------

  /** The page before any images: every created worker idle, nothing queued. */
  function Initial(poolSize: nat): (r: State)
  {
    State([], seq(poolSize, _ => true), 0, [], "", false, false, [])
  }

  /**
   * `processNextTask`: with an empty queue, finish the batch if no worker is
   * busy; otherwise hand the queue's head to the first idle worker, if any.
   */
  function NextTask(s: State): (r: State)
  {
    if |s.queue| == 0 then
      if s.active == 0 then s.(processing := false, ready := true) else s
    else
      match FirstIdle(s.idle)
      case None => s
      case Some(w) =>
        s.(queue := s.queue[1..], idle := s.idle[w := false], active := s.active + 1,
           posted := s.posted + [Dispatch(w, s.queue[0])])
  }

  /** `processNextTask` called k times in a row. */
  function NextTimes(s: State, k: nat): (r: State)
  {
    if k == 0 then s else NextTask(NextTimes(s, k - 1))
  }

  /**
   * `handleImagesInput`: an empty list is ignored; otherwise the batch state
   * is reset, the images join the end of the queue (which is not cleared) and
   * `processNextTask` runs min(MAX_WORKERS, queue length) times.
   */
  function Submit(s: State, images: seq<Image>): (r: State)
  {
    if |images| == 0 then s
    else
      var t := s.(processing := true, ready := false, code := "", results := [], queue := s.queue + images);
      NextTimes(t, Min(MaxWorkers, |t.queue|))
  }

  /** `prev + (prev ? '\n' : '') + data` */
  function JoinCode(prev: string, data: string): (r: string)
  {
    prev + (if prev != "" then "\n" else "") + data
  }

  /**
   * `handleWorkerMessage`: a completion is recorded in `results` and `code`;
   * if the sender is one of the pool's workers, that worker becomes idle and
   * the next task is started. An error message changes nothing.
   */
  function Deliver(s: State, sender: int, message: WorkerMessage): (r: State)
  {
    match message
    case Failure(_, _) => s
    case Complete(name, encoding, width, height, data) =>
      var t := s.(results := s.results + [Result(name, encoding, width, height)], code := JoinCode(s.code, data));
      if 0 <= sender < |s.idle| then NextTask(t.(idle := t.idle[sender := true], active := t.active - 1))
      else t
  }

  function Step(s: State, e: Event): (r: State)
  {
    match e
    case ImagesInput(images) => Submit(s, images)
    case WorkerReply(sender, message) => Deliver(s, sender, message)
  }

  /** The state after the events, in order. */
  function Run(s: State, es: seq<Event>): (r: State)
    decreases |es|
  {
    if |es| == 0 then s else Run(Step(s, es[0]), es[1..])
  }

  // ---------------------------------------------------------------------
  // The invariant
  // ---------------------------------------------------------------------

  /**
   * At most MAX_WORKERS slots, `activeWorkers` counts the busy ones, and a
   * finished batch has nothing running and nothing queued.
   */
  predicate Counted(s: State)
  {
    |s.idle| <= MaxWorkers && s.active == BusyCount(s.idle) && (s.ready ==> s.active == 0 && |s.queue| == 0)
  }

  /** Between events, in addition, no worker is idle while tasks wait. */
  predicate Invariant(s: State)
  {
    Counted(s) && (|s.queue| > 0 ==> IdleCount(s.idle) == 0)
  }

  /** A worker of the pool reports completion only while it holds a task. */
  predicate Sound(s: State, e: Event)
  {
    match e
    case WorkerReply(sender, Complete(_, _, _, _, _)) => 0 <= sender < |s.idle| ==> !s.idle[sender]
    case _ => true
  }

  predicate SoundRun(s: State, es: seq<Event>)
    decreases |es|
  {
    |es| == 0 || (Sound(s, es[0]) && SoundRun(Step(s, es[0]), es[1..]))
  }

  lemma InitialInvariant(poolSize: nat)
    requires poolSize <= MaxWorkers
    ensures Invariant(Initial(poolSize)) && IdleCount(Initial(poolSize).idle) == poolSize
  {
    var idle := Initial(poolSize).idle;
    assert forall j :: 0 <= j < |idle| ==> idle[j];
  }

  /**
   * `processNextTask` on a non-empty queue with an idle worker: the head
   * leaves the queue and is posted to the first idle worker, which becomes
   * busy, and `activeWorkers` grows by one; nothing else changes.
   */
  lemma NextTaskAssigns(s: State, w: nat)
    requires |s.queue| > 0 && w < |s.idle| && s.idle[w]
    requires forall j :: 0 <= j < w ==> !s.idle[j]
    ensures NextTask(s) == s.(queue := s.queue[1..], idle := s.idle[w := false], active := s.active + 1,
                              posted := s.posted + [Dispatch(w, s.queue[0])])
  {
  }

  /** With every worker busy, `processNextTask` changes nothing. */
  lemma NextTaskWaits(s: State)
    requires |s.queue| > 0 && forall j :: 0 <= j < |s.idle| ==> !s.idle[j]
    ensures NextTask(s) == s
  {
  }

  /** With an empty queue, `processNextTask` only finishes the batch, and only when no worker is busy. */
  lemma NextTaskDrained(s: State)
    requires |s.queue| == 0
    ensures NextTask(s) == if s.active == 0 then s.(processing := false, ready := true) else s
  {
  }

  /** What one `processNextTask` does to the counts, under the invariant. */
  lemma NextTaskCounts(s: State)
    requires Counted(s)
    ensures var u := NextTask(s);
      Counted(u) && |u.idle| == |s.idle| &&
      u.results == s.results && u.code == s.code &&
      (|s.queue| > 0 ==> u.processing == s.processing && u.ready == s.ready) &&
      (|s.queue| > 0 && IdleCount(s.idle) > 0 ==>
        u.queue == s.queue[1..] && u.active == s.active + 1 && IdleCount(u.idle) == IdleCount(s.idle) - 1) &&
      (|s.queue| > 0 && IdleCount(s.idle) == 0 ==> u == s)
  {
    if |s.queue| > 0 {
      match FirstIdle(s.idle)
      case None =>
      case Some(w) =>
        BusyCountUpdate(s.idle, w, false);
    }
  }

  /** `processNextTask` never frees a worker. */
  lemma NextTaskOnlyOccupies(s: State)
    ensures Occupies(s, NextTask(s))
  {
  }

  /** u has the same slots as s and every slot busy in s is busy in u. */
  predicate Occupies(s: State, u: State)
  {
    |u.idle| == |s.idle| && forall j :: 0 <= j < |s.idle| && !s.idle[j] ==> !u.idle[j]
  }

  /** u is t after its first d queued tasks were started and nothing else happened. */
  predicate StartedFrom(t: State, u: State, d: nat)
  {
    d <= |t.queue| && Counted(u) && Occupies(t, u) &&
    u.queue == t.queue[d..] && u.active == t.active + d && IdleCount(u.idle) == IdleCount(t.idle) - d &&
    u.results == t.results && u.code == t.code && u.processing == t.processing && u.ready == t.ready &&
    Posted(u.posted) == Posted(t.posted) + t.queue[..d]
  }

  /**
   * One more `processNextTask` while tasks remain: after k calls, min(k, idle)
   * tasks were started, and the next call starts one more if a worker is idle.
   */
  lemma StartedStep(t: State, u: State, k: nat)
    requires k < |t.queue| && StartedFrom(t, u, Min(k, IdleCount(t.idle)))
    ensures StartedFrom(t, NextTask(u), Min(k + 1, IdleCount(t.idle)))
  {
    var d := Min(k, IdleCount(t.idle));
    NextTaskCounts(u);
    NextTaskOnlyOccupies(u);
    if IdleCount(u.idle) > 0 {
      assert d == k;
      var w := FirstIdle(u.idle).value;
      PostedAppend(u.posted, Dispatch(w, u.queue[0]));
      assert t.queue[..d + 1] == t.queue[..d] + [t.queue[d]];
    } else {
      assert NextTask(u) == u;
    }
  }

  /**
   * k calls of `processNextTask` on a queue of at least k tasks start
   * min(k, idle workers) of them, taken from the front of the queue.
   */
  lemma {:induction false} NextTimesStarts(t: State, k: nat)
    requires Counted(t) && k <= |t.queue|
    ensures StartedFrom(t, NextTimes(t, k), Min(k, IdleCount(t.idle)))
  {
    if k == 0 {
      assert t.queue[..0] == [] && t.queue[0..] == t.queue;
    } else {
      NextTimesStarts(t, k - 1);
      StartedStep(t, NextTimes(t, k - 1), k - 1);
    }
  }

  // ---------------------------------------------------------------------
  // Every task is posted once, in order
  // ---------------------------------------------------------------------

  /** The images posted to workers, in posting order. */
  function Posted(posted: seq<Dispatch>): (images: seq<Image>)
    ensures |images| == |posted|
  {
    if |posted| == 0 then [] else Posted(posted[..|posted| - 1]) + [posted[|posted| - 1].image]
  }

  lemma PostedAppend(posted: seq<Dispatch>, d: Dispatch)
    ensures Posted(posted + [d]) == Posted(posted) + [d.image]
  {
    assert (posted + [d])[..|posted|] == posted;
  }

  /** The images already posted followed by those still queued. */
  function Tasks(s: State): (r: seq<Image>)
  {
    Posted(s.posted) + s.queue
  }

  /** The images an event adds to the queue. */
  function Added(e: Event): (r: seq<Image>)
  {
    if e.ImagesInput? then e.images else []
  }

  function AddedBy(es: seq<Event>): (r: seq<Image>)
    decreases |es|
  {
    if |es| == 0 then [] else Added(es[0]) + AddedBy(es[1..])
  }

  /** `processNextTask` moves the head of the queue to the posted tasks, or nothing. */
  lemma NextTaskConserves(s: State)
    ensures Tasks(NextTask(s)) == Tasks(s)
  {
    if |s.queue| > 0 && FirstIdle(s.idle).Some? {
      PostedAppend(s.posted, Dispatch(FirstIdle(s.idle).value, s.queue[0]));
      assert [s.queue[0]] + s.queue[1..] == s.queue;
    }
  }

  lemma {:induction false} NextTimesConserves(s: State, k: nat)
    ensures Tasks(NextTimes(s, k)) == Tasks(s)
  {
    if k > 0 {
      NextTimesConserves(s, k - 1);
      NextTaskConserves(NextTimes(s, k - 1));
    }
  }

  /**
   * One event: the posted tasks followed by the queue only ever grow by the
   * submitted images at the end, so no task is posted twice, skipped or
   * reordered.
   */
  lemma StepConserves(s: State, e: Event)
    ensures Tasks(Step(s, e)) == Tasks(s) + Added(e)
  {
    match e
    case ImagesInput(images) =>
      if |images| > 0 {
        var t := s.(processing := true, ready := false, code := "", results := [], queue := s.queue + images);
        NextTimesConserves(t, Min(MaxWorkers, |t.queue|));
      }
    case WorkerReply(sender, message) =>
      if message.Complete? {
        var t := s.(results := s.results + [Result(message.name, message.encoding, message.width, message.height)],
                    code := JoinCode(s.code, message.data));
        if 0 <= sender < |s.idle| {
          NextTaskConserves(t.(idle := t.idle[sender := true], active := t.active - 1));
        }
      }
  }

  /** Over any run, the images posted and still queued are exactly the submitted ones, in order. */
  lemma {:induction false} RunConserves(s: State, es: seq<Event>)
    ensures Tasks(Run(s, es)) == Tasks(s) + AddedBy(es)
    decreases |es|
  {
    if |es| > 0 {
      StepConserves(s, es[0]);
      RunConserves(Step(s, es[0]), es[1..]);
    }
  }

  // ---------------------------------------------------------------------
  // Submitting a batch
  // ---------------------------------------------------------------------

  /**
   * `handleImagesInput`: an empty list changes nothing. Otherwise the images
   * are appended to whatever is still queued, the batch is reset, and the
   * first d queued tasks are posted, where d is the least of MAX_WORKERS,
   * the queue length and the number of idle workers.
   */
  lemma SubmitStarts(s: State, images: seq<Image>)
    requires Invariant(s)
    ensures |images| == 0 ==> Submit(s, images) == s
    ensures |images| > 0 ==>
      var q := s.queue + images;
      var d := Min(Min(MaxWorkers, |q|), IdleCount(s.idle));
      var u := Submit(s, images);
      Invariant(u) && u.queue == q[d..] && u.active == s.active + d &&
      u.processing && !u.ready && u.code == "" && u.results == [] &&
      Posted(u.posted) == Posted(s.posted) + q[..d]
  {
    if |images| > 0 {
      var t := s.(processing := true, ready := false, code := "", results := [], queue := s.queue + images);
      NextTimesStarts(t, Min(MaxWorkers, |t.queue|));
    }
  }

  // ---------------------------------------------------------------------
  // Worker replies
  // ---------------------------------------------------------------------

  /** An error message changes no state at all: no result, no freed worker, no new task. */
  lemma ErrorChangesNothing(s: State, sender: int, name: string, error: string)
    ensures Step(s, WorkerReply(sender, Failure(name, error))) == s
  {
  }

  /**
   * A completion from a busy worker of the pool adds one result, and results
   * + busy workers + queued tasks stays the same.
   */
  lemma CompletionCounts(s: State, sender: nat, name: string, encoding: string, width: int, height: int, data: string)
    requires Invariant(s) && sender < |s.idle| && !s.idle[sender]
    ensures var u := Step(s, WorkerReply(sender, Complete(name, encoding, width, height, data)));
      Invariant(u) && u.results == s.results + [Result(name, encoding, width, height)] &&
      |u.results| + u.active + |u.queue| == |s.results| + s.active + |s.queue|
  {
    if |s.queue| > 0 {
      CompletionTakesNext(s, sender, name, encoding, width, height, data);
    } else {
      CompletionDrains(s, sender, name, encoding, width, height, data);
    }
  }

  /** With tasks queued, the worker that finished is handed the queue's head at once. */
  lemma CompletionTakesNext(s: State, sender: nat, name: string, encoding: string, width: int, height: int, data: string)
    requires Invariant(s) && sender < |s.idle| && !s.idle[sender] && |s.queue| > 0
    ensures var u := Step(s, WorkerReply(sender, Complete(name, encoding, width, height, data)));
      Invariant(u) && u.results == s.results + [Result(name, encoding, width, height)] &&
      u.idle == s.idle && u.active == s.active && u.queue == s.queue[1..] &&
      u.posted == s.posted + [Dispatch(sender, s.queue[0])]
  {
    var t := s.(results := s.results + [Result(name, encoding, width, height)], code := JoinCode(s.code, data));
    var t2 := t.(idle := t.idle[sender := true], active := t.active - 1);
    NextTaskAssigns(t2, sender);
    assert t2.idle[sender := false] == s.idle;
  }

  /**
   * With nothing queued, the worker that finished stays idle, and the batch
   * is ready exactly when it was the last busy worker.
   */
  lemma CompletionDrains(s: State, sender: nat, name: string, encoding: string, width: int, height: int, data: string)
    requires Invariant(s) && sender < |s.idle| && !s.idle[sender] && |s.queue| == 0
    ensures var u := Step(s, WorkerReply(sender, Complete(name, encoding, width, height, data)));
      Invariant(u) && u.results == s.results + [Result(name, encoding, width, height)] &&
      u.idle == s.idle[sender := true] && u.active == s.active - 1 && u.queue == [] &&
      (u.ready <==> s.active == 1)
  {
    BusyCountUpdate(s.idle, sender, true);
  }

  /** The reply of the last busy worker with nothing queued finishes the batch. */
  lemma LastCompletionFinishes(s: State, sender: nat, name: string, encoding: string, width: int, height: int, data: string)
    requires Invariant(s) && sender < |s.idle| && !s.idle[sender] && |s.queue| == 0 && s.active == 1
    ensures var u := Step(s, WorkerReply(sender, Complete(name, encoding, width, height, data)));
      u.ready && !u.processing && u.active == 0 && forall j :: 0 <= j < |u.idle| ==> u.idle[j]
  {
    BusyCountUpdate(s.idle, sender, true);
  }

  /** Under the invariant, every sound event keeps it. */
  lemma StepKeepsInvariant(s: State, e: Event)
    requires Invariant(s) && Sound(s, e)
    ensures Invariant(Step(s, e)) && |Step(s, e).idle| == |s.idle|
  {
    match e
    case ImagesInput(images) =>
      if |images| > 0 {
        var t := s.(processing := true, ready := false, code := "", results := [], queue := s.queue + images);
        NextTimesStarts(t, Min(MaxWorkers, |t.queue|));
      }
    case WorkerReply(sender, message) =>
      if message.Complete? && 0 <= sender < |s.idle| {
        CompletionCounts(s, sender, message.name, message.encoding, message.width, message.height, message.data);
      }
  }

  /**
   * Why soundness is assumed: with slot 0 busy and nothing queued, a
   * completion from the idle slot 1 sets `ready` while slot 0 still works.
   */
  lemma UnsoundCompletionSetsReady()
    ensures var s := State([], [false, true], 1, [], "", true, false, []);
            var u := Deliver(s, 1, Complete("a", "rgb565", 1, 1, "x"));
            Invariant(s) && !Sound(s, WorkerReply(1, Complete("a", "rgb565", 1, 1, "x"))) &&
            u.ready && !u.idle[0]
  {
    var s := State([], [false, true], 1, [], "", true, false, []);
    assert BusyCount(s.idle) == 1;
  }

  /** Over a run of sound events, the invariant holds throughout. */
  lemma {:induction false} RunKeepsInvariant(s: State, es: seq<Event>)
    requires Invariant(s) && SoundRun(s, es)
    ensures Invariant(Run(s, es)) && |Run(s, es).idle| == |s.idle|
    decreases |es|
  {
    if |es| > 0 {
      StepKeepsInvariant(s, es[0]);
      RunKeepsInvariant(Step(s, es[0]), es[1..]);
    }
  }

  // ---------------------------------------------------------------------
  // A failed image holds its worker for good
  // ---------------------------------------------------------------------

  /** The event is a completion reported by the worker in slot w. */
  predicate CompletesFrom(e: Event, w: nat)
  {
    e.WorkerReply? && e.sender == w && e.message.Complete?
  }

  /** Repeated `processNextTask` calls only ever occupy workers. */
  lemma {:induction false} NextTimesOccupies(s: State, k: nat)
    ensures Occupies(s, NextTimes(s, k))
  {
    if k > 0 {
      NextTimesOccupies(s, k - 1);
      NextTaskOnlyOccupies(NextTimes(s, k - 1));
    }
  }

  /**
   * A busy worker stays busy through every event except its own completion,
   * whatever the rest of the state is.
   */
  lemma StepKeepsBusy(s: State, e: Event, w: nat)
    requires w < |s.idle| && !s.idle[w] && !CompletesFrom(e, w)
    ensures w < |Step(s, e).idle| && !Step(s, e).idle[w]
  {
    match e
    case ImagesInput(images) =>
      if |images| > 0 {
        var t := s.(processing := true, ready := false, code := "", results := [], queue := s.queue + images);
        NextTimesOccupies(t, Min(MaxWorkers, |t.queue|));
      }
    case WorkerReply(sender, message) =>
      if message.Complete? && 0 <= sender < |s.idle| {
        var t := s.(results := s.results + [Result(message.name, message.encoding, message.width, message.height)],
                    code := JoinCode(s.code, message.data));
        NextTaskOnlyOccupies(t.(idle := t.idle[sender := true], active := t.active - 1));
      }
  }

  /**
   * A worker whose image failed posts an error, never a completion, so it
   * stays busy, `activeWorkers` never returns to 0 and `ready` is never set
   * again, whatever else happens.
   */
  lemma {:induction false} BusySlotBlocksReady(s: State, es: seq<Event>, w: nat)
    requires Invariant(s) && SoundRun(s, es) && w < |s.idle| && !s.idle[w]
    requires forall i :: 0 <= i < |es| ==> !CompletesFrom(es[i], w)
    ensures w < |Run(s, es).idle| && !Run(s, es).idle[w] && Run(s, es).active > 0 && !Run(s, es).ready
    decreases |es|
  {
    RunKeepsInvariant(s, es);
    if |es| > 0 {
      StepKeepsInvariant(s, es[0]);
      StepKeepsBusy(s, es[0], w);
      BusySlotBlocksReady(Step(s, es[0]), es[1..], w);
    }
  }

  // ---------------------------------------------------------------------
  // What the page accumulates
  // ---------------------------------------------------------------------

  /** The results the completions among the events report, in order. */
  function CompletedResults(es: seq<Event>): (r: seq<Result>)
    decreases |es|
  {
    if |es| == 0 then []
    else if es[0].WorkerReply? && es[0].message.Complete? then
      var m := es[0].message;
      [Result(m.name, m.encoding, m.width, m.height)] + CompletedResults(es[1..])
    else CompletedResults(es[1..])
  }

  /** The texts the completions among the events carry, in order. */
  function CompletedData(es: seq<Event>): (r: seq<string>)
    decreases |es|
  {
    if |es| == 0 then []
    else if es[0].WorkerReply? && es[0].message.Complete? then [es[0].message.data] + CompletedData(es[1..])
    else CompletedData(es[1..])
  }

  /** `code` after appending each text in turn with `JoinCode`. */
  function JoinFrom(prev: string, texts: seq<string>): (r: string)
    decreases |texts|
  {
    if |texts| == 0 then prev else JoinFrom(JoinCode(prev, texts[0]), texts[1..])
  }

  /** The texts separated by single line breaks. */
  function JoinLines(texts: seq<string>): (r: string)
  {
    if |texts| == 0 then ""
    else if |texts| == 1 then texts[0]
    else JoinLines(texts[..|texts| - 1]) + "\n" + texts[|texts| - 1]
  }

  predicate AllNonEmpty(texts: seq<string>)
  {
    forall i :: 0 <= i < |texts| ==> texts[i] != ""
  }

  /**
   * Between batches, results and code grow by the completions in the order
   * they arrive (also those from a worker the page cannot find); errors add
   * nothing.
   */
  lemma {:induction false} RunRecordsCompletions(s: State, es: seq<Event>)
    requires forall i :: 0 <= i < |es| ==> es[i].WorkerReply?
    ensures Run(s, es).results == s.results + CompletedResults(es)
    ensures Run(s, es).code == JoinFrom(s.code, CompletedData(es))
    decreases |es|
  {
    if |es| > 0 {
      var e, rest := es[0], es[1..];
      var m := e.message;
      assert e == WorkerReply(e.sender, m);
      var u := Step(s, e);
      assert Run(s, es) == Run(u, rest);
      StepRecords(s, e.sender, m);
      RunRecordsCompletions(u, rest);
      if m.Complete? {
        assert CompletedResults(es) == [Result(m.name, m.encoding, m.width, m.height)] + CompletedResults(rest);
        assert CompletedData(es) == [m.data] + CompletedData(rest);
        assert ([m.data] + CompletedData(rest))[1..] == CompletedData(rest);
        assert JoinFrom(s.code, CompletedData(es)) == JoinFrom(u.code, CompletedData(rest));
      } else {
        assert CompletedResults(es) == CompletedResults(rest);
        assert CompletedData(es) == CompletedData(rest);
      }
    }
  }

  /** One message: a completion is appended to results and code, an error adds nothing. */
  lemma StepRecords(s: State, sender: int, m: WorkerMessage)
    ensures var u := Step(s, WorkerReply(sender, m));
      u.results == s.results + (if m.Complete? then [Result(m.name, m.encoding, m.width, m.height)] else []) &&
      u.code == (if m.Complete? then JoinCode(s.code, m.data) else s.code)
  {
  }

  /** Appending one more non-empty text to the joined texts. */
  lemma JoinLinesSnoc(texts: seq<string>, text: string)
    requires AllNonEmpty(texts)
    ensures JoinCode(JoinLines(texts), text) == JoinLines(texts + [text])
  {
    assert (texts + [text])[..|texts|] == texts;
    if |texts| >= 2 {
      assert JoinLines(texts) != "" by {
        assert |JoinLines(texts)| >= 1;
      }
    }
  }

  lemma {:induction false} JoinFromLines(before: seq<string>, texts: seq<string>)
    requires AllNonEmpty(before) && AllNonEmpty(texts)
    ensures JoinFrom(JoinLines(before), texts) == JoinLines(before + texts)
    decreases |texts|
  {
    if |texts| == 0 {
      assert before + texts == before;
    } else {
      JoinLinesSnoc(before, texts[0]);
      JoinFromLines(before + [texts[0]], texts[1..]);
      assert (before + [texts[0]]) + texts[1..] == before + texts;
    }
  }

  /**
   * A batch starts with empty `code`; afterwards `code` is the texts of the
   * completions so far, one per line break, provided no text is empty (every
   * encoder's output ends in `\n};`).
   */
  lemma CodeJoinsCompletions(s: State, es: seq<Event>)
    requires s.code == "" && forall i :: 0 <= i < |es| ==> es[i].WorkerReply?
    requires AllNonEmpty(CompletedData(es))
    ensures Run(s, es).code == JoinLines(CompletedData(es))
    ensures Run(s, es).results == s.results + CompletedResults(es)
  {
    RunRecordsCompletions(s, es);
    JoinFromLines([], CompletedData(es));
    assert [] + CompletedData(es) == CompletedData(es);
  }
}
