/** The bounded blocking queue as interleaved steps of its threads: any number of them
    call Put and Take, with one mutex and two condition variables. */
module BlockingQueue {
  import opened Outcomes

  /** Where a thread stands. Threads that went to sleep before are told from fresh ones
      by `woken`, which changes nothing in what they do. */
  datatype Pc<T> =
    | Idle
    | PutLock(x: T, woken: bool)  // waits for the mutex
    | PutTest(x: T, woken: bool)  // holds the mutex, about to look for room
    | PutSleep(x: T)              // sleeps until the queue is not full
    | PutUnlock                   // has pushed, holds the mutex
    | PutNotify                   // has released the mutex, about to notify
    | TakeLock(woken: bool)
    | TakeTest(woken: bool)
    | TakeSleep
    | TakeNotify(x: T)            // has popped, holds the mutex, about to notify
    | TakeUnlock(x: T)            // has notified, holds the mutex

  /** `puts` and `takes` record what was ever pushed and popped, in order. */
  datatype State<T> = State(pcs: seq<Pc<T>>, lock: Option<nat>, queue: seq<T>, puts: seq<T>, takes: seq<T>)

  datatype Step<T> =
    | CallPut(t: nat, x: T)
    | CallTake(t: nat)
    | Acquire(t: nat)
    | Test(t: nat)
    | Unlock(t: nat)
    | Notify(t: nat, wake: nat)   // `wake` is the thread the notification reaches, if any sleeps
    | WakeUp(t: nat)              // a spurious wake-up

  // ----- steps

  predicate Holds<T>(pc: Pc<T>) {
    pc.PutTest? || pc.PutUnlock? || pc.TakeTest? || pc.TakeNotify? || pc.TakeUnlock?
  }

  /** The sleepers a notification of this thread is for. */
  predicate Awaits<T>(notifier: Pc<T>, sleeper: Pc<T>) {
    (notifier.PutNotify? && sleeper.TakeSleep?) || (notifier.TakeNotify? && sleeper.PutSleep?)
  }

  function Woken<T>(pc: Pc<T>): Pc<T>
    requires pc.PutSleep? || pc.TakeSleep?
  {
    if pc.PutSleep? then PutLock(pc.x, true) else TakeLock(true)
  }

  predicate Enabled<T>(s: State<T>, step: Step<T>) {
    && step.t < |s.pcs|
    && var pc := s.pcs[step.t];
       match step
       case CallPut(_, _) => pc.Idle?
       case CallTake(_) => pc.Idle?
       case Acquire(_) => s.lock.None? && (pc.PutLock? || pc.TakeLock?)
       case Test(_) => pc.PutTest? || pc.TakeTest?
       case Unlock(_) => pc.PutUnlock? || pc.TakeUnlock?
       case Notify(_, wake) =>
         && (pc.PutNotify? || pc.TakeNotify?)
         && ((exists k :: 0 <= k < |s.pcs| && Awaits(pc, s.pcs[k])) ==>
               wake < |s.pcs| && Awaits(pc, s.pcs[wake]))
       case WakeUp(_) => pc.PutSleep? || pc.TakeSleep?
  }

  function Do<T>(capacity: nat, s: State<T>, step: Step<T>): State<T>
    requires Enabled(s, step)
  {
    var t, pc := step.t, s.pcs[step.t];
    match step
    case CallPut(_, x) => s.(pcs := s.pcs[t := PutLock(x, false)])
    case CallTake(_) => s.(pcs := s.pcs[t := TakeLock(false)])
    case Acquire(_) =>
      s.(lock := Some(t), pcs := s.pcs[t := if pc.PutLock? then PutTest(pc.x, pc.woken) else TakeTest(pc.woken)])
    case Test(_) =>
      if pc.PutTest? then
        if |s.queue| == capacity then s.(lock := None, pcs := s.pcs[t := PutSleep(pc.x)])
        else s.(queue := s.queue + [pc.x], puts := s.puts + [pc.x], pcs := s.pcs[t := PutUnlock])
      else if s.queue == [] then s.(lock := None, pcs := s.pcs[t := TakeSleep])
      else s.(queue := s.queue[1..], takes := s.takes + [s.queue[0]], pcs := s.pcs[t := TakeNotify(s.queue[0])])
    case Unlock(_) => s.(lock := None, pcs := s.pcs[t := if pc.PutUnlock? then PutNotify else Idle])
    case Notify(_, wake) =>
      var next := s.pcs[t := if pc.PutNotify? then Idle else TakeUnlock(pc.x)];
      s.(pcs := if wake < |s.pcs| && Awaits(pc, s.pcs[wake]) then next[wake := Woken(s.pcs[wake])] else next)
    case WakeUp(_) => s.(pcs := s.pcs[t := Woken(pc)])
  }

  function Init<T>(threads: nat): State<T> {
    State(seq(threads, _ => Idle), None, [], [], [])
  }

  /** The state after a run, if all its steps are possible. */
  function After<T>(capacity: nat, threads: nat, steps: seq<Step<T>>): Option<State<T>>
    decreases |steps|
  {
    if steps == [] then Some(Init(threads))
    else
      var before, last := After(capacity, threads, steps[..|steps| - 1]), steps[|steps| - 1];
      if before.Some? && Enabled(before.value, last) then Some(Do(capacity, before.value, last)) else None
  }

  // ----- counting threads

  function Count<T>(pcs: seq<Pc<T>>, p: Pc<T> -> bool): nat {
    if pcs == [] then 0 else (if p(pcs[0]) then 1 else 0) + Count(pcs[1..], p)
  }

  function One(b: bool): nat {
    if b then 1 else 0
  }

  lemma {:induction false} CountUpdate<T>(pcs: seq<Pc<T>>, p: Pc<T> -> bool, t: nat, pc: Pc<T>)
    requires t < |pcs|
    ensures Count(pcs[t := pc], p) == Count(pcs, p) - One(p(pcs[t])) + One(p(pc))
    decreases |pcs|
  {
    if t == 0 {
      assert pcs[t := pc][1..] == pcs[1..];
    } else {
      CountUpdate(pcs[1..], p, t - 1, pc);
      assert pcs[t := pc][1..] == pcs[1..][t - 1 := pc];
    }
  }

  lemma {:induction false} CountPositive<T>(pcs: seq<Pc<T>>, p: Pc<T> -> bool)
    ensures Count(pcs, p) > 0 <==> exists t :: 0 <= t < |pcs| && p(pcs[t])
    decreases |pcs|
  {
    if pcs != [] {
      CountPositive(pcs[1..], p);
      if t :| 0 <= t < |pcs| && p(pcs[t]) {
        assert t > 0 ==> p(pcs[1..][t - 1]);
      }
      if t :| 0 <= t < |pcs[1..]| && p(pcs[1..][t]) {
        assert p(pcs[t + 1]);
      }
    }
  }

  // ----- what every step keeps

  predicate SleepsToTake<T>(pc: Pc<T>) { pc.TakeSleep? }

  predicate SleepsToPut<T>(pc: Pc<T>) { pc.PutSleep? }

  /** A notification to come for those who sleep to take, or one of them woken. */
  predicate HelpsTake<T>(pc: Pc<T>) {
    pc.PutUnlock? || pc.PutNotify? || ((pc.TakeLock? || pc.TakeTest?) && pc.woken)
  }

  /** A notification to come for those who sleep to put, or one of them woken. */
  predicate HelpsPut<T>(pc: Pc<T>) {
    pc.TakeNotify? || ((pc.PutLock? || pc.PutTest?) && pc.woken)
  }

  /** The mutex is held by exactly the thread that thinks it holds it. */
  ghost predicate Exclusive<T>(s: State<T>) {
    && (s.lock.Some? ==> s.lock.value < |s.pcs|)
    && forall t :: 0 <= t < |s.pcs| ==> (Holds(s.pcs[t]) <==> s.lock == Some(t))
  }

  /** Never more items than the capacity; what was taken, then what is queued, is what was
      put, in order. */
  ghost predicate Fifo<T>(capacity: nat, s: State<T>) {
    |s.queue| <= capacity && s.puts == s.takes + s.queue
  }

  /** While a consumer sleeps, every queued item has a notification to come or a woken
      consumer; while a producer sleeps, every free place has one. */
  ghost predicate NoneLost<T>(capacity: nat, s: State<T>) {
    && (Count(s.pcs, SleepsToTake) > 0 ==> |s.queue| <= Count(s.pcs, HelpsTake))
    && (Count(s.pcs, SleepsToPut) > 0 ==> capacity - |s.queue| <= Count(s.pcs, HelpsPut))
  }

  ghost predicate Inv<T>(capacity: nat, s: State<T>) {
    Exclusive(s) && Fifo(capacity, s) && NoneLost(capacity, s)
  }

  lemma CountsUpdate<T>(pcs: seq<Pc<T>>, t: nat, pc: Pc<T>)
    requires t < |pcs|
    ensures Count(pcs[t := pc], SleepsToTake) ==
            Count(pcs, SleepsToTake) - One(SleepsToTake(pcs[t])) + One(SleepsToTake(pc))
    ensures Count(pcs[t := pc], SleepsToPut) ==
            Count(pcs, SleepsToPut) - One(SleepsToPut(pcs[t])) + One(SleepsToPut(pc))
    ensures Count(pcs[t := pc], HelpsTake) == Count(pcs, HelpsTake) - One(HelpsTake(pcs[t])) + One(HelpsTake(pc))
    ensures Count(pcs[t := pc], HelpsPut) == Count(pcs, HelpsPut) - One(HelpsPut(pcs[t])) + One(HelpsPut(pc))
  {
    CountUpdate(pcs, SleepsToTake, t, pc);
    CountUpdate(pcs, SleepsToPut, t, pc);
    CountUpdate(pcs, HelpsTake, t, pc);
    CountUpdate(pcs, HelpsPut, t, pc);
  }

  lemma ExclusiveKept<T>(capacity: nat, s: State<T>, step: Step<T>)
    requires Exclusive(s) && Enabled(s, step)
    ensures Exclusive(Do(capacity, s, step))
  {
  }

  lemma FifoKept<T>(capacity: nat, s: State<T>, step: Step<T>)
    requires Fifo(capacity, s) && Enabled(s, step)
    ensures Fifo(capacity, Do(capacity, s, step))
  {
    if step.Test? && s.pcs[step.t].TakeTest? && s.queue != [] {
      assert s.queue == [s.queue[0]] + s.queue[1..];
    }
  }

  lemma NoneLostKept<T>(capacity: nat, s: State<T>, step: Step<T>)
    requires Fifo(capacity, s) && NoneLost(capacity, s) && Enabled(s, step)
    ensures NoneLost(capacity, Do(capacity, s, step))
  {
    var t := step.t;
    var s' := Do(capacity, s, step);
    if step.Notify? {
      NotifyKept(capacity, s, t, step.wake);
    } else {
      CountsUpdate(s.pcs, t, s'.pcs[t]);
      assert s'.pcs == s.pcs[t := s'.pcs[t]];
    }
  }

  lemma NotifyKept<T>(capacity: nat, s: State<T>, t: nat, wake: nat)
    requires Fifo(capacity, s) && NoneLost(capacity, s) && Enabled(s, Notify(t, wake))
    ensures NoneLost(capacity, Do(capacity, s, Notify(t, wake)))
  {
    var pc := s.pcs[t];
    var next := s.pcs[t := if pc.PutNotify? then Idle else TakeUnlock(pc.x)];
    CountsUpdate(s.pcs, t, next[t]);
    if wake < |s.pcs| && Awaits(pc, s.pcs[wake]) {
      CountsUpdate(next, wake, Woken(s.pcs[wake]));
    } else {
      NobodySleeps(s.pcs, next, t);
    }
  }

  /** A notification that reaches nobody leaves nobody asleep. */
  lemma NobodySleeps<T>(pcs: seq<Pc<T>>, next: seq<Pc<T>>, t: nat)
    requires t < |pcs| && (pcs[t].PutNotify? || pcs[t].TakeNotify?)
    requires forall k :: 0 <= k < |pcs| ==> !Awaits(pcs[t], pcs[k])
    requires |next| == |pcs| && !next[t].PutSleep? && !next[t].TakeSleep?
    requires forall k :: 0 <= k < |pcs| && k != t ==> next[k] == pcs[k]
    ensures pcs[t].PutNotify? ==> Count(next, SleepsToTake) == 0
    ensures pcs[t].TakeNotify? ==> Count(next, SleepsToPut) == 0
  {
    CountPositive(next, SleepsToTake);
    CountPositive(next, SleepsToPut);
  }

  /** Over every run, whatever threads do: the mutex excludes, the queue keeps its
      capacity and its order, and no wake-up is lost. */
  lemma {:induction false} RunsAreSafe<T>(capacity: nat, threads: nat, steps: seq<Step<T>>)
    requires After(capacity, threads, steps).Some?
    ensures Inv(capacity, After(capacity, threads, steps).value)
    decreases |steps|
  {
    if steps == [] {
      CountPositive(Init<T>(threads).pcs, SleepsToTake);
      CountPositive(Init<T>(threads).pcs, SleepsToPut);
    } else {
      var init, last := steps[..|steps| - 1], steps[|steps| - 1];
      RunsAreSafe(capacity, threads, init);
      var s := After(capacity, threads, init).value;
      ExclusiveKept(capacity, s, last);
      FifoKept(capacity, s, last);
      NoneLostKept(capacity, s, last);
    }
  }

  /** Whoever can take a step without being called. */
  predicate Active<T>(pc: Pc<T>) {
    !pc.Idle? && !pc.PutSleep? && !pc.TakeSleep?
  }

  /** When all running calls sleep, the consumers among them find the queue empty and the
      producers find it full; so with any capacity they cannot both wait for each other. */
  lemma NoDeadlock<T>(capacity: nat, threads: nat, steps: seq<Step<T>>)
    requires After(capacity, threads, steps).Some?
    requires forall t :: 0 <= t < |After(capacity, threads, steps).value.pcs| ==>
      !Active(After(capacity, threads, steps).value.pcs[t])
    ensures var s := After(capacity, threads, steps).value;
      && (Count(s.pcs, SleepsToTake) > 0 ==> s.queue == [])
      && (Count(s.pcs, SleepsToPut) > 0 ==> |s.queue| == capacity)
      && (capacity > 0 ==> Count(s.pcs, SleepsToTake) == 0 || Count(s.pcs, SleepsToPut) == 0)
  {
    RunsAreSafe(capacity, threads, steps);
    var s := After(capacity, threads, steps).value;
    CountPositive(s.pcs, HelpsTake);
    CountPositive(s.pcs, HelpsPut);
  }

  /** As long as some running call does not sleep, a step other than a new call or a
      spurious wake-up is possible. */
  lemma Progress<T>(capacity: nat, s: State<T>, t: nat)
    requires Inv(capacity, s) && t < |s.pcs| && Active(s.pcs[t])
    ensures exists step: Step<T> :: (step.Acquire? || step.Test? || step.Unlock? || step.Notify?) && Enabled(s, step)
  {
    var u := if s.lock.Some? then s.lock.value else t;
    var pc := s.pcs[u];
    if pc.PutNotify? || pc.TakeNotify? {
      var wake: nat := if exists k :: 0 <= k < |s.pcs| && Awaits(pc, s.pcs[k])
                       then var k :| 0 <= k < |s.pcs| && Awaits(pc, s.pcs[k]); k else 0;
      assert Enabled(s, Notify(u, wake));
    } else if pc.PutLock? || pc.TakeLock? {
      assert Enabled(s, Step<T>.Acquire(u));
    } else if pc.PutTest? || pc.TakeTest? {
      assert Enabled(s, Step<T>.Test(u));
    } else {
      assert Enabled(s, Step<T>.Unlock(u));
    }
  }
}
