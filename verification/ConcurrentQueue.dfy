/**
 concurrent_queue.h as a protocol: any number of threads, each step one critical section or one
 operation on the condition variable.  Threads may be scheduled in any order and may wake up
 without being notified.
 */
module ConcurrentQueue {
  import opened Common

  /** Where a thread is. */
  datatype Place =
    | Idle       // between calls
    | Notifying  // push: the lock is released, notify_one is still to come
    | Checking   // wait_and_pop: awake, about to look at the queue under the lock
    | Asleep     // wait_and_pop: in wait

  datatype State<T> = State(queue: seq<T>, threads: seq<Place>, pushed: seq<T>, popped: seq<T>)

  datatype Step<T> =
    | Push(t: nat, data: T)               // push up to and including unlock
    | Notify(t: nat, woken: Option<nat>)  // notify_one
    | TryPop(t: nat)                      // try_pop
    | EnterWait(t: nat)                   // wait_and_pop is called
    | Check(t: nat)                       // the loop test: pop, or go to sleep
    | SpuriousWake(t: nat)

  predicate At<T>(s: State<T>, t: nat, p: Place) {
    t < |s.threads| && s.threads[t] == p
  }

  ghost predicate SomeAsleep<T>(s: State<T>) {
    exists u :: 0 <= u < |s.threads| && s.threads[u] == Asleep
  }

  /** notify_one wakes one sleeper, whichever, if there is any. */
  ghost predicate Enabled<T>(s: State<T>, step: Step<T>) {
    match step
    case Push(t, _) => At(s, t, Idle)
    case Notify(t, woken) =>
      && At(s, t, Notifying)
      && (if woken.Some? then At(s, woken.value, Asleep) else !SomeAsleep(s))
    case TryPop(t) => At(s, t, Idle)
    case EnterWait(t) => At(s, t, Idle)
    case Check(t) => At(s, t, Checking)
    case SpuriousWake(t) => At(s, t, Asleep)
  }

  function Pop<T>(s: State<T>): State<T>
    requires s.queue != []
  {
    s.(queue := s.queue[1..], popped := s.popped + [s.queue[0]])
  }

  ghost function Do<T>(s: State<T>, step: Step<T>): State<T>
    requires Enabled(s, step)
  {
    match step
    case Push(t, data) =>
      s.(queue := s.queue + [data], pushed := s.pushed + [data], threads := s.threads[t := Notifying])
    case Notify(t, woken) =>
      var threads := s.threads[t := Idle];
      s.(threads := if woken.Some? then threads[woken.value := Checking] else threads)
    case TryPop(t) => if s.queue == [] then s else Pop(s)
    case EnterWait(t) => s.(threads := s.threads[t := Checking])
    case Check(t) =>
      if s.queue == [] then s.(threads := s.threads[t := Asleep])
      else Pop(s).(threads := s.threads[t := Idle])
    case SpuriousWake(t) => s.(threads := s.threads[t := Checking])
  }

  ghost predicate IsRun<T>(s: State<T>, steps: seq<Step<T>>)
    decreases |steps|
  {
    steps == [] || (Enabled(s, steps[0]) && IsRun(Do(s, steps[0]), steps[1..]))
  }

  ghost function After<T>(s: State<T>, steps: seq<Step<T>>): State<T>
    requires IsRun(s, steps)
    decreases |steps|
  {
    if steps == [] then s else After(Do(s, steps[0]), steps[1..])
  }

  /** n threads outside of any call and an empty queue. */
  function Initial<T>(n: nat): State<T> {
    State([], seq(n, _ => Idle), [], [])
  }

  function Count(threads: seq<Place>, p: Place): nat {
    if threads == [] then 0 else (if threads[0] == p then 1 else 0) + Count(threads[1..], p)
  }

  // ---------------------------------------------------------------- invariants

  /** Values leave in the order they came: nothing lost, doubled or reordered. */
  ghost predicate Fifo<T>(s: State<T>) {
    s.pushed == s.popped + s.queue
  }

  /** While anyone sleeps, every queued item has a notification or an awake waiter on its way. */
  ghost predicate NoLostWakeup<T>(s: State<T>) {
    Count(s.threads, Asleep) > 0 ==> |s.queue| <= Count(s.threads, Notifying) + Count(s.threads, Checking)
  }

  lemma {:induction false} CountUpdate(threads: seq<Place>, t: nat, p: Place, q: Place)
    requires t < |threads|
    ensures Count(threads[t := p], q) ==
            Count(threads, q) - (if threads[t] == q then 1 else 0) + (if p == q then 1 else 0)
    decreases |threads|
  {
    var u := threads[t := p];
    if t == 0 {
      assert u[1..] == threads[1..];
    } else {
      assert u[1..] == threads[1..][t - 1 := p];
      CountUpdate(threads[1..], t - 1, p, q);
    }
  }

  lemma {:induction false} CountSome(threads: seq<Place>, p: Place)
    ensures Count(threads, p) > 0 <==> exists t :: 0 <= t < |threads| && threads[t] == p
    decreases |threads|
  {
    if threads == [] {
    } else {
      CountSome(threads[1..], p);
      if threads[0] != p && Count(threads, p) > 0 {
        var t :| 0 <= t < |threads[1..]| && threads[1..][t] == p;
        assert threads[t + 1] == p;
      }
      if t :| 0 <= t < |threads| && threads[t] == p {
        assert t > 0 ==> threads[1..][t - 1] == p;
      }
    }
  }

  lemma Updates(threads: seq<Place>, t: nat, p: Place)
    requires t < |threads|
    ensures forall q ::
              Count(threads[t := p], q) ==
              Count(threads, q) - (if threads[t] == q then 1 else 0) + (if p == q then 1 else 0)
  {
    forall q {
      CountUpdate(threads, t, p, q);
    }
  }

  lemma StepKeeps<T>(s: State<T>, step: Step<T>)
    requires Enabled(s, step) && Fifo(s) && NoLostWakeup(s)
    ensures Fifo(Do(s, step)) && NoLostWakeup(Do(s, step))
  {
    hide Count;
    match step
    case Push(t, data) =>
      Updates(s.threads, t, Notifying);
    case Notify(t, woken) =>
      var threads := s.threads[t := Idle];
      Updates(s.threads, t, Idle);
      if woken.Some? {
        Updates(threads, woken.value, Checking);
        CountSome(s.threads, Asleep);
      } else {
        CountSome(s.threads, Asleep);
      }
    case TryPop(t) =>
    case EnterWait(t) =>
      Updates(s.threads, t, Checking);
    case Check(t) =>
      Updates(s.threads, t, if s.queue == [] then Asleep else Idle);
    case SpuriousWake(t) =>
      Updates(s.threads, t, Checking);
      CountSome(s.threads, Asleep);
  }

  lemma {:induction false} RunKeeps<T>(s: State<T>, steps: seq<Step<T>>)
    requires IsRun(s, steps) && Fifo(s) && NoLostWakeup(s)
    ensures Fifo(After(s, steps)) && NoLostWakeup(After(s, steps))
    decreases |steps|
  {
    if steps == [] {
    } else {
      StepKeeps(s, steps[0]);
      RunKeeps(Do(s, steps[0]), steps[1..]);
    }
  }

  /** Both invariants hold in every reachable state of every interleaving. */
  lemma EveryInterleaving<T>(n: nat, steps: seq<Step<T>>)
    requires IsRun(Initial(n), steps)
    ensures Fifo(After(Initial(n), steps)) && NoLostWakeup(After(Initial(n), steps))
  {
    var s: State<T> := Initial(n);
    CountSome(s.threads, Asleep);
    RunKeeps(s, steps);
  }

  // ---------------------------------------------------------------- what a run does, told by its steps alone

  /** The values of the push calls, in the order of their critical sections. */
  function PushedData<T>(steps: seq<Step<T>>): seq<T> {
    if steps == [] then []
    else
      var init, last := steps[..|steps| - 1], steps[|steps| - 1];
      PushedData(init) + (if last.Push? then [last.data] else [])
  }

  /** How many of them were taken: each try_pop and each test in wait_and_pop takes one if there is one left. */
  function Taken<T>(steps: seq<Step<T>>): (n: nat)
    ensures n <= |PushedData(steps)|
  {
    if steps == [] then 0
    else
      var init, last := steps[..|steps| - 1], steps[|steps| - 1];
      var n := Taken(init);
      if (last.TryPop? || last.Check?) && n < |PushedData(init)| then n + 1 else n
  }

  lemma {:induction false} RunSnoc<T>(s: State<T>, steps: seq<Step<T>>)
    requires IsRun(s, steps) && steps != []
    ensures var init, last := steps[..|steps| - 1], steps[|steps| - 1];
            IsRun(s, init) && Enabled(After(s, init), last) && After(s, steps) == Do(After(s, init), last)
    decreases |steps|
  {
    hide Enabled, Do;
    var init, last := steps[..|steps| - 1], steps[|steps| - 1];
    if |steps| == 1 {
      assert init == [] && steps[1..] == [];
    } else {
      RunSnoc(Do(s, steps[0]), steps[1..]);
      assert init[0] == steps[0] && init[1..] == steps[1..][..|steps| - 2];
      assert steps[1..][|steps| - 2] == last;
    }
  }

  /**
   After every run, whatever the interleaving: the values popped are the first ones pushed, as
   many as were taken, and the queue holds the others, in order.
   */
  lemma {:induction false} RunIsFifo<T>(n: nat, steps: seq<Step<T>>)
    requires IsRun(Initial(n), steps)
    ensures var s, all, k := After(Initial(n), steps), PushedData(steps), Taken(steps);
            s.popped == all[..k] && s.queue == all[k..] && s.pushed == all
    decreases |steps|
  {
    if steps == [] {
    } else {
      var init, last := steps[..|steps| - 1], steps[|steps| - 1];
      RunSnoc(Initial(n), steps);
      RunIsFifo(n, init);
      StepIsFifo(After(Initial(n), init), last, PushedData(init), Taken(init));
    }
  }

  /** One step on a queue that holds all[k..]. */
  lemma StepIsFifo<T>(s: State<T>, step: Step<T>, all: seq<T>, k: nat)
    requires Enabled(s, step) && k <= |all| && s.popped == all[..k] && s.queue == all[k..] && s.pushed == all
    ensures var all' := all + (if step.Push? then [step.data] else []);
            var k' := if (step.TryPop? || step.Check?) && k < |all| then k + 1 else k;
            var s' := Do(s, step);
            s'.popped == all'[..k'] && s'.queue == all'[k'..] && s'.pushed == all'
  {
    if (step.TryPop? || step.Check?) && k < |all| {
      assert all[..k] + [all[k]] == all[..k + 1] && all[k..][1..] == all[k + 1..];
    }
    if step.Push? {
      assert all[k..] + [step.data] == (all + [step.data])[k..];
    }
  }

  /** The push calls that have not yet notified. */
  function OpenPushes<T>(steps: seq<Step<T>>): int {
    if steps == [] then 0
    else
      var last := steps[|steps| - 1];
      OpenPushes(steps[..|steps| - 1]) + (if last.Push? then 1 else if last.Notify? then -1 else 0)
  }

  /** The wait_and_pop calls that have not yet taken a value. */
  function OpenWaits<T>(steps: seq<Step<T>>): int {
    if steps == [] then 0
    else
      var init, last := steps[..|steps| - 1], steps[|steps| - 1];
      var got := last.Check? && Taken(init) < |PushedData(init)|;
      OpenWaits(init) + (if last.EnterWait? then 1 else if got then -1 else 0)
  }

  /** Every call under way is a thread inside it, and no other thread is. */
  lemma {:induction false} CallsBalance<T>(n: nat, steps: seq<Step<T>>)
    requires IsRun(Initial(n), steps)
    ensures var threads := After(Initial(n), steps).threads;
            && |threads| == n && Count(threads, Notifying) == OpenPushes(steps)
            && Count(threads, Checking) + Count(threads, Asleep) == OpenWaits(steps)
    decreases |steps|
  {
    hide Count, Enabled, Do;
    if steps == [] {
      var s: State<T> := Initial(n);
      CountSome(s.threads, Notifying);
      CountSome(s.threads, Checking);
      CountSome(s.threads, Asleep);
    } else {
      var init, last := steps[..|steps| - 1], steps[|steps| - 1];
      RunSnoc(Initial(n), steps);
      RunIsFifo(n, init);
      CallsBalance(n, init);
      StepBalance(After(Initial(n), init), last);
    }
  }

  lemma StepBalance<T>(s: State<T>, step: Step<T>)
    requires Enabled(s, step)
    ensures var a, b := s.threads, Do(s, step).threads;
            var waiting := (threads: seq<Place>) => Count(threads, Checking) + Count(threads, Asleep);
            && |b| == |a|
            && Count(b, Notifying) == Count(a, Notifying) + (if step.Push? then 1 else if step.Notify? then -1 else 0)
            && waiting(b) == waiting(a) +
                             (if step.EnterWait? then 1 else if step.Check? && s.queue != [] then -1 else 0)
  {
    hide Count;
    match step
    case Push(t, data) => Updates(s.threads, t, Notifying);
    case Notify(t, woken) =>
      Updates(s.threads, t, Idle);
      if woken.Some? {
        Updates(s.threads[t := Idle], woken.value, Checking);
      }
    case TryPop(t) =>
    case EnterWait(t) => Updates(s.threads, t, Checking);
    case Check(t) => Updates(s.threads, t, if s.queue == [] then Asleep else Idle);
    case SpuriousWake(t) => Updates(s.threads, t, Checking);
  }

  // ---------------------------------------------------------------- nothing gets stuck

  /** The steps threads take on their own inside calls already made. */
  predicate Internal<T>(step: Step<T>) { step.Notify? || step.Check? }

  /** The work such steps have left. */
  function Work<T>(s: State<T>): nat { 2 * Count(s.threads, Notifying) + Count(s.threads, Checking) }

  lemma InternalWorks<T>(s: State<T>, step: Step<T>)
    requires Enabled(s, step) && Internal(step)
    ensures Work(Do(s, step)) < Work(s)
  {
    hide Count;
    match step
    case Notify(t, woken) =>
      Updates(s.threads, t, Idle);
      if woken.Some? {
        Updates(s.threads[t := Idle], woken.value, Checking);
      }
    case Check(t) => Updates(s.threads, t, if s.queue == [] then Asleep else Idle);
  }

  /** As long as there is work, some such step can be taken. */
  lemma InternalEnabled<T>(s: State<T>)
    requires Work(s) > 0
    ensures exists step :: Internal(step) && Enabled(s, step)
  {
    hide Count;
    CountSome(s.threads, Notifying);
    CountSome(s.threads, Checking);
    if t :| 0 <= t < |s.threads| && s.threads[t] == Checking {
      var step: Step<T> := Check(t);
      assert Internal(step) && Enabled(s, step);
    } else {
      var t :| 0 <= t < |s.threads| && s.threads[t] == Notifying;
      if SomeAsleep(s) {
        var u :| 0 <= u < |s.threads| && s.threads[u] == Asleep;
        var step: Step<T> := Notify(t, Some(u));
        assert Internal(step) && Enabled(s, step);
      } else {
        var step: Step<T> := Notify(t, None);
        assert Internal(step) && Enabled(s, step);
      }
    }
  }

  lemma {:induction false} InternalRunBound<T>(s: State<T>, steps: seq<Step<T>>)
    requires IsRun(s, steps) && forall i :: 0 <= i < |steps| ==> Internal(steps[i])
    ensures |steps| + Work(After(s, steps)) <= Work(s)
    decreases |steps|
  {
    hide Work, Do, Enabled;
    if steps == [] {
    } else {
      assert Internal(steps[0]);
      InternalWorks(s, steps[0]);
      InternalRunBound(Do(s, steps[0]), steps[1..]);
    }
  }

  /**
   Let any run stop making calls: every way of finishing the calls under way takes at most `Work`
   steps, and where no such step is left, no thread sleeps beside a queued item.
   */
  lemma NeverStuck<T>(n: nat, steps: seq<Step<T>>, finish: seq<Step<T>>)
    requires IsRun(Initial(n), steps) && IsRun(After(Initial(n), steps), finish)
    requires forall i :: 0 <= i < |finish| ==> Internal(finish[i])
    ensures |finish| <= Work(After(Initial(n), steps))
    ensures var s := After(After(Initial(n), steps), finish);
            (forall step :: Internal(step) ==> !Enabled(s, step)) ==> s.queue == [] || !SomeAsleep(s)
  {
    hide Work, Enabled, Do;
    EveryInterleaving(n, steps);
    var mid := After(Initial(n), steps);
    InternalRunBound(mid, finish);
    RunKeeps(mid, finish);
    var s := After(mid, finish);
    if forall step :: Internal(step) ==> !Enabled(s, step) {
      QuietIsFine(s);
    }
  }

  lemma QuietIsFine<T>(s: State<T>)
    requires NoLostWakeup(s) && forall step :: Internal(step) ==> !Enabled(s, step)
    ensures s.queue == [] || !SomeAsleep(s)
  {
    hide Enabled, Count;
    if Work(s) > 0 {
      InternalEnabled(s);
    }
    CountSome(s.threads, Asleep);
  }
}
