/** A producer that hands items to a worker thread one at a time and waits for each
    result, as interleaved steps. */
module SyncTaskLine {
  import opened Outcomes

  datatype Side = ProducerSide | WorkerSide

  /** The producer alternates Produce and Sync. */
  datatype Producer<T> =
    | Outside             // about to produce
    | UnsetLock(x: T)     // waits for the mutex to unset the processed flag
    | UnsetHeld(x: T)     // holds the mutex
    | Putting(x: T)       // puts the item, once the queue has room
    | Produced            // about to sync
    | SyncLock            // waits for the mutex
    | SyncHeld            // holds the mutex, about to look at the flag
    | SyncSleep           // sleeps until notified

  datatype Worker<T> =
    | Taking              // takes an item, once there is one
    | ConsumeLock(x: T)   // waits for the mutex
    | ConsumeHeld(x: T)   // holds the mutex, about to consume
    | Consumed(x: T)      // holds the mutex, the result is set
    | Notifying(x: T)     // has released the mutex
    | Testing(x: T)       // about to test for termination
    | Finished

  /** What is produced is queued, then consumed; `results` are what Sync has returned. */
  datatype State<T, R> = State(producer: Producer<T>, worker: Worker<T>, lock: Option<Side>, processed: bool,
                               stat: R, queue: seq<T>, produced: seq<T>, consumed: seq<T>, results: seq<R>)

  /** `consume` gives the result for the last of the items consumed so far. */
  datatype Task<!T, !R> = Task(consume: seq<T> -> R, terminate: T -> bool)

  /** What a thread does next is determined, but for the item to produce and for
      spurious wake-ups. */
  datatype Step<T> = ProduceItem(x: T) | ProducerStep | WorkerStep | WakeUp

  predicate Enabled<T, R>(s: State<T, R>, step: Step<T>) {
    match step
    case ProduceItem(_) => s.producer.Outside?
    case ProducerStep =>
      (match s.producer
       case Outside => false
       case UnsetLock(_) => s.lock.None?
       case UnsetHeld(_) => true
       case Putting(_) => |s.queue| < 1
       case Produced => true
       case SyncLock => s.lock.None?
       case SyncHeld => true
       case SyncSleep => false)
    case WorkerStep =>
      (match s.worker
       case Taking => s.queue != []
       case ConsumeLock(_) => s.lock.None?
       case Finished => false
       case _ => true)
    case WakeUp => s.producer.SyncSleep?
  }

  function Do<T, R>(task: Task<T, R>, s: State<T, R>, step: Step<T>): State<T, R>
    requires Enabled(s, step)
  {
    match step
    case ProduceItem(x) => s.(producer := UnsetLock(x))
    case ProducerStep =>
      (match s.producer
       case UnsetLock(x) => s.(producer := UnsetHeld(x), lock := Some(ProducerSide))
       case UnsetHeld(x) => s.(producer := Putting(x), lock := None, processed := false)
       case Putting(x) => s.(producer := Produced, queue := s.queue + [x], produced := s.produced + [x])
       case Produced => s.(producer := SyncLock)
       case SyncLock => s.(producer := SyncHeld, lock := Some(ProducerSide))
       case SyncHeld =>
         if s.processed then s.(producer := Outside, lock := None, results := s.results + [s.stat])
         else s.(producer := SyncSleep, lock := None))
    case WorkerStep =>
      (match s.worker
       case Taking => s.(worker := ConsumeLock(s.queue[0]), queue := s.queue[1..])
       case ConsumeLock(x) => s.(worker := ConsumeHeld(x), lock := Some(WorkerSide))
       case ConsumeHeld(x) =>
         var consumed := s.consumed + [x];
         s.(worker := Consumed(x), consumed := consumed, stat := task.consume(consumed), processed := true)
       case Consumed(x) => s.(worker := Notifying(x), lock := None)
       case Notifying(x) =>
         s.(worker := Testing(x), producer := if s.producer.SyncSleep? then SyncLock else s.producer)
       case Testing(x) => s.(worker := if task.terminate(x) then Finished else Taking))
    case WakeUp => s.(producer := SyncLock)
  }

  /** The result starts with an arbitrary value. */
  function Init<T, R>(unset: R): State<T, R> {
    State(Outside, Taking, None, false, unset, [], [], [], [])
  }

  /** The state after a run, if all its steps are possible. */
  function After<T, R>(task: Task<T, R>, unset: R, steps: seq<Step<T>>): Option<State<T, R>>
    decreases |steps|
  {
    if steps == [] then Some(Init(unset))
    else
      var before, last := After(task, unset, steps[..|steps| - 1]), steps[|steps| - 1];
      if before.Some? && Enabled(before.value, last) then Some(Do(task, before.value, last)) else None
  }

  /** The items the worker has taken but not consumed. */
  function InHand<T>(w: Worker<T>): seq<T> {
    if w.ConsumeLock? || w.ConsumeHeld? then [w.x] else []
  }

  /** Between two items: everything produced has been consumed. */
  predicate Settled<T>(p: Producer<T>) {
    p.Outside? || p.UnsetLock? || p.UnsetHeld? || p.Putting?
  }

  ghost predicate Exclusive<T, R>(s: State<T, R>) {
    && (s.lock == Some(ProducerSide) <==> s.producer.UnsetHeld? || s.producer.SyncHeld?)
    && (s.lock == Some(WorkerSide) <==> s.worker.ConsumeHeld? || s.worker.Consumed?)
  }

  /** At most one item is under way; the flag says whether the last one is done. */
  ghost predicate OneByOne<T, R>(s: State<T, R>) {
    && s.produced == s.consumed + InHand(s.worker) + s.queue
    && |s.consumed| + 1 >= |s.produced| == |s.results| + (if Settled(s.producer) then 0 else 1)
    && (Settled(s.producer) ==> s.produced == s.consumed && !s.worker.Consumed?)
    && (s.producer.Putting? ==> !s.processed)
    && (!Settled(s.producer) ==> (s.processed <==> s.produced == s.consumed))
  }

  /** Every Sync has returned the result of the item produced before it. */
  ghost predicate Answered<T, R>(task: Task<T, R>, s: State<T, R>) {
    && (s.consumed != [] ==> s.stat == task.consume(s.consumed))
    && |s.results| <= |s.produced|
    && forall i :: 0 <= i < |s.results| ==> s.results[i] == task.consume(s.produced[..i + 1])
  }

  /** Whoever sleeps though the result is there is about to be notified. */
  ghost predicate NoneLost<T, R>(s: State<T, R>) {
    s.producer.SyncSleep? && s.processed ==> s.worker.Consumed? || s.worker.Notifying?
  }

  /** The worker finishes with the first item that terminates. */
  ghost predicate Terminates<T, R>(task: Task<T, R>, s: State<T, R>) {
    && (forall i :: 0 <= i < |s.consumed| - 1 ==> !task.terminate(s.consumed[i]))
    && (s.worker.Consumed? || s.worker.Notifying? || s.worker.Testing? ==>
          s.consumed != [] && s.worker.x == s.consumed[|s.consumed| - 1])
    && (s.worker.Taking? || s.worker.ConsumeLock? || s.worker.ConsumeHeld? ==>
          s.consumed != [] ==> !task.terminate(s.consumed[|s.consumed| - 1]))
    && (s.worker.Finished? ==> s.consumed != [] && task.terminate(s.consumed[|s.consumed| - 1]))
  }

  ghost predicate Inv<T, R>(task: Task<T, R>, s: State<T, R>) {
    Exclusive(s) && OneByOne(s) && Answered(task, s) && NoneLost(s) && Terminates(task, s)
  }

  lemma OneByOneKept<T, R>(task: Task<T, R>, s: State<T, R>, step: Step<T>)
    requires Exclusive(s) && OneByOne(s) && Enabled(s, step)
    ensures OneByOne(Do(task, s, step))
  {
  }

  lemma AnsweredKept<T, R>(task: Task<T, R>, s: State<T, R>, step: Step<T>)
    requires OneByOne(s) && Answered(task, s) && Enabled(s, step)
    ensures Answered(task, Do(task, s, step))
  {
    var s' := Do(task, s, step);
    forall i | 0 <= i < |s'.results| ensures s'.results[i] == task.consume(s'.produced[..i + 1]) {
      if i < |s.results| {
        assert s'.produced[..i + 1] == s.produced[..i + 1];
      } else {
        assert s'.produced[..i + 1] == s.consumed;
      }
    }
  }

  lemma RestKept<T, R>(task: Task<T, R>, s: State<T, R>, step: Step<T>)
    requires Exclusive(s) && OneByOne(s) && NoneLost(s) && Terminates(task, s) && Enabled(s, step)
    ensures var s' := Do(task, s, step); Exclusive(s') && NoneLost(s') && Terminates(task, s')
  {
  }

  /** In every interleaving: the k-th Sync returns what consuming the k-th item gave, at
      most one item is ever under way, and no wake-up is lost. */
  lemma {:induction false} RunsAreSafe<T, R>(task: Task<T, R>, unset: R, steps: seq<Step<T>>)
    requires After(task, unset, steps).Some?
    ensures Inv(task, After(task, unset, steps).value)
    decreases |steps|
  {
    if steps != [] {
      var init, last := steps[..|steps| - 1], steps[|steps| - 1];
      RunsAreSafe(task, unset, init);
      var s := After(task, unset, init).value;
      OneByOneKept(task, s, last);
      AnsweredKept(task, s, last);
      RestKept(task, s, last);
    }
  }

  lemma OneOfTwo(lock: Option<Side>)
    ensures lock == None || lock == Some(ProducerSide) || lock == Some(WorkerSide)
  {
    assert lock.Some? ==> lock.value.ProducerSide? || lock.value.WorkerSide?;
  }

  /** A producer that sleeps in Sync is never stranded: the worker can go on, unless an
      item before the last one has terminated it. */
  lemma NeverStranded<T, R>(task: Task<T, R>, s: State<T, R>)
    requires Inv(task, s) && s.producer.SyncSleep?
    ensures Enabled(s, WorkerStep) ||
      exists i :: 0 <= i < |s.produced| - 1 && task.terminate(s.produced[i])
  {
    assert s.consumed + [] + [] == s.consumed;
    if s.worker.Taking? {
      assert s.produced != s.consumed;
    } else if s.worker.ConsumeLock? {
      OneOfTwo(s.lock);
    } else if s.worker.Finished? {
      assert s.consumed == s.produced[..|s.produced| - 1];
      assert task.terminate(s.produced[|s.consumed| - 1]);
    }
  }
}
